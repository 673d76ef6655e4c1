/** The caption marker that both the help-page pipeline and the
    concatenation tool strip from transcripts. */
module Captions {
  import opened PyStr

  /** The marker YouTube's French captions insert for music. */
  const Musique: string := "[Musique]"

  /** `text.replace("[Musique]", "")`: one left-to-right pass. */
  function Clean(text: string): string
  {
    ReplaceAll(text, Musique, "")
  }
}
