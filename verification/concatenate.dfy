/** The transcript concatenation tool: the selected transcript files are
    joined into one text, each under a `Sujet:` heading, and the result is
    written to the path the save dialog returns. */
module Concatenate {
  import opened Wrappers
  import opened PyStr
  import opened PosixPath
  import opened Captions

  /** `basename(path).split(".")[0]`: the file name up to its first dot. */
  function Stem(path: string): (stem: string)
    ensures '.' !in stem
    ensures stem == Basename(path) || StartsWith(Basename(path), stem + ".")
  {
    SplitFirstPieceChar(Basename(path), '.');
    Split(Basename(path), ".")[0]
  }

  /** What one selected file adds to the output. */
  function Contribution(path: string, content: string): string
  {
    "Sujet: " + Stem(path) + "\n" + Clean(content) + "\n\n"
  }

  /** The contributions of the selected files, in selection order. */
  function Contributions(paths: seq<string>, contents: seq<string>): (parts: seq<string>)
    requires |paths| == |contents|
    ensures |parts| == |paths|
  {
    seq(|paths|, i requires 0 <= i < |paths| => Contribution(paths[i], contents[i]))
  }

  /** The text the tool writes for the given files and their contents. */
  function Concatenation(paths: seq<string>, contents: seq<string>): string
    requires |paths| == |contents|
  {
    Concat(Contributions(paths, contents))
  }

  /** The file name the save dialog proposes. */
  function DefaultFileName(firstPath: string): string
  {
    "Concatenated_" + Basename(Dirname(firstPath)) + ".txt"
  }

  /** `select_and_concatenate_files`: `selected` is what the open dialog
      returned, `contents` the text read from each selected file, and
      `saveDialog(initialDir, initialFile)` the path the save dialog returns
      (empty when cancelled). The result is the (path, text) pair written,
      if any. */
  method SelectAndConcatenate(selected: seq<string>, contents: seq<string>,
                              saveDialog: (string, string) -> string)
    returns (written: Option<(string, string)>)
    requires |contents| == |selected|
    ensures selected == [] ==> written == None
    ensures selected != [] ==>
      var savePath := saveDialog(Dirname(selected[0]), DefaultFileName(selected[0]));
      written == if savePath == "" then None else Some((savePath, Concatenation(selected, contents)))
  {
    if |selected| == 0 {
      return None;
    }
    var concatenated := "";
    var i := 0;
    while i < |selected|
      invariant i <= |selected|
      invariant concatenated == Concatenation(selected[..i], contents[..i])
    {
      var content := ReplaceAll(contents[i], Musique, "");
      var fileDesc := "Sujet: " + Split(Basename(selected[i]), ".")[0];
      concatenated := concatenated + fileDesc + "\n" + content + "\n\n";
      assert Contributions(selected[..i + 1], contents[..i + 1])
          == Contributions(selected[..i], contents[..i]) + [Contribution(selected[i], contents[i])];
      i := i + 1;
    }
    assert selected[..i] == selected && contents[..i] == contents;
    var defaultFileName := "Concatenated_" + Basename(Dirname(selected[0])) + ".txt";
    var savePath := saveDialog(Dirname(selected[0]), defaultFileName);
    if savePath != "" {
      written := Some((savePath, concatenated));
    } else {
      written := None;
    }
  }

  /** The output for a selection split in two is the output for the first
      part followed by the output for the second. */
  lemma ConcatenationAppend(p1: seq<string>, c1: seq<string>, p2: seq<string>, c2: seq<string>)
    requires |p1| == |c1| && |p2| == |c2|
    ensures Concatenation(p1 + p2, c1 + c2) == Concatenation(p1, c1) + Concatenation(p2, c2)
  {
    assert Contributions(p1 + p2, c1 + c2) == Contributions(p1, c1) + Contributions(p2, c2);
    ConcatAppend(Contributions(p1, c1), Contributions(p2, c2));
  }

  /** Every file contributes its heading, its cleaned text and a blank
      line, in selection order. */
  lemma ConcatenationCons(path: string, content: string, paths: seq<string>, contents: seq<string>)
    requires |paths| == |contents|
    ensures Concatenation([path] + paths, [content] + contents)
         == "Sujet: " + Stem(path) + "\n" + Clean(content) + "\n\n" + Concatenation(paths, contents)
  {
    assert Contributions([path] + paths, [content] + contents)
        == [Contribution(path, content)] + Contributions(paths, contents);
    ConcatCons(Contribution(path, content), Contributions(paths, contents));
  }

  /** The heading uses the file name up to its first dot: `dir/a.b.txt`
      gives `a`. */
  lemma StemStopsAtFirstDot(dir: string, a: string, rest: string)
    requires '.' !in a && '/' !in a && '/' !in rest
    ensures Stem(dir + "/" + (a + "." + rest)) == a
  {
    var name := a + "." + rest;
    assert forall k :: 0 <= k < |a| ==> name[k] == a[k];
    assert name[|a|] == '.';
    BasenameOfJoin(dir, name);
    var stem := Stem(dir + "/" + name);
    assert StartsWith(name, stem + ".");
    assert name[..|stem|] == stem && name[|stem|] == '.';
    assert |stem| == |a|;
    assert stem == name[..|a|] == a;
  }

  /** The proposed name comes from the folder holding the first file. */
  lemma DefaultNameFromFolder(parent: string, folder: string, name: string)
    requires '/' !in folder && folder != []
    requires '/' !in name
    ensures DefaultFileName(parent + "/" + folder + "/" + name) == "Concatenated_" + folder + ".txt"
  {
    DirnameOfJoin(parent + "/" + folder, name);
    BasenameOfJoin(parent, folder);
  }

  /** The marker does not start within the first four characters of
      `"[Mus" + Musique + "ique]"`. */
  lemma MarkerNotInPrefix(x: string)
    requires x == "[Mus" + Musique + "ique]"
    ensures forall i :: 0 <= i < 4 ==> !OccursAt(x, Musique, i)
  {
    var t := Musique;
    assert |x| == 18 && |t| == 9;
    assert x[4] == '[' && x[0..9][4] == x[4] && t[4] == 'i';
    assert x[1] == 'M' && x[1..10][0] == x[1] && t[0] == '[';
    assert x[2] == 'u' && x[2..11][0] == x[2];
    assert x[3] == 's' && x[3..12][0] == x[3];
  }

  /** Removing `[Musique]` once does not guarantee it is gone. */
  lemma CleanMayLeaveMarker()
    ensures Clean("[Mus" + Musique + "ique]") == Musique
  {
    var t, p, q := Musique, "[Mus", "ique]";
    var x := p + (t + q);
    assert x == "[Mus" + Musique + "ique]";
    MarkerNotInPrefix(x);
    ReplaceAfterClean(p, t + q, t, "");
    ReplaceLeading(t, q, "");
    assert ReplaceAll(q, t, "") == q;
    MarkerHalves();
  }

  /** `[Mus` followed by `ique]` spells the marker. */
  lemma MarkerHalves()
    ensures "[Mus" + "ique]" == Musique
  {
    assert |"[Mus" + "ique]"| == |Musique|;
  }
}
