// `html_tree(path, sub_dirs)` of src/services/html_generator.py: a heading
// naming a directory and an ASCII drawing of its sub-directories, one
// level deep. Whether a path names a directory is a question to the file
// system; here it is the parameter `isDir`.

module HtmlTree {
  import opened HtmlText

  /** Shown when the path is empty. */
  const DefaultPath := "this device"
  /** The first line of the drawing for an empty shown path (never used:
      the shown path is never empty). */
  const FallbackTree := "This device/"
  /** `├──`, the branch of every entry but the last. */
  const PipeBranch := "\U{251C}\U{2500}\U{2500}"
  /** `└──`, the branch of the last entry. */
  const CornerBranch := "\U{2514}\U{2500}\U{2500}"

  // ---------------------------------------------------------------------
  // Paths

  /** `s.replace('\\', '/')`: every backslash becomes a slash. */
  function Slashes(s: string): (r: string)
    ensures |r| == |s|
    ensures forall i :: 0 <= i < |s| ==> r[i] == if s[i] == '\\' then '/' else s[i]
  {
    if |s| == 0 then [] else Slashes(s[..|s| - 1]) + [if s[|s| - 1] == '\\' then '/' else s[|s| - 1]]
  }

  /** The path as the heading shows it: `this device` for an empty path,
      backslashes turned into slashes, and a slash appended when the
      result names a directory. */
  function ShownPath(path: string, isDir: string -> bool): string
  {
    var p := Slashes(if path != "" then path else DefaultPath);
    if isDir(p) then p + "/" else p
  }

  /** `os.path.join(dir, name)` with POSIX rules: an absolute name replaces
      the directory; otherwise a slash separates the two unless the
      directory is empty or already ends with one. */
  function JoinPath(dir: string, name: string): string
  {
    if Absolute(name) then name
    else if dir == "" || dir[|dir| - 1] == '/' then dir + name
    else dir + "/" + name
  }

  predicate Absolute(name: string)
  {
    |name| > 0 && name[0] == '/'
  }

  /** The joined path ends with the name. An absolute name is taken as it
      is; any other name follows the directory, with one slash between
      them when the directory is not empty (its own trailing slash, or one
      added). */
  lemma JoinPathRules(dir: string, name: string)
    ensures |JoinPath(dir, name)| >= |name|
    ensures JoinPath(dir, name)[|JoinPath(dir, name)| - |name|..] == name
    ensures Absolute(name) ==> JoinPath(dir, name) == name
    ensures !Absolute(name) ==> dir <= JoinPath(dir, name)
    ensures !Absolute(name) ==> |dir| + |name| <= |JoinPath(dir, name)| <= |dir| + |name| + 1
    ensures !Absolute(name) && dir != "" ==> JoinPath(dir, name)[|JoinPath(dir, name)| - |name| - 1] == '/'
    ensures !Absolute(name) && dir != "" && dir[|dir| - 1] == '/' ==> JoinPath(dir, name) == dir + name
    ensures !Absolute(name) && dir != "" && dir[|dir| - 1] != '/' ==> JoinPath(dir, name) == dir + "/" + name
    ensures !Absolute(name) && dir == "" ==> JoinPath(dir, name) == name
  {
    var r := JoinPath(dir, name);
    if !Absolute(name) && dir != "" {
      if dir[|dir| - 1] == '/' {
        assert r == dir + name;
        assert r[|dir| - 1] == dir[|dir| - 1];
      } else {
        assert r == dir + ("/" + name);
        assert r[|dir|] == '/';
      }
    }
  }

  // ---------------------------------------------------------------------
  // The drawing

  /** An entry's name, with a slash when it names a directory inside dir. */
  function DisplayName(dir: string, name: string, isDir: string -> bool): string
  {
    if isDir(JoinPath(dir, name)) then name + "/" else name
  }

  /** The branch drawn before entry i of n. */
  function Branch(i: nat, n: nat): string
  {
    if i < n - 1 then PipeBranch else CornerBranch
  }

  /** The line of entry i. */
  function EntryText(dir: string, subDirs: seq<string>, isDir: string -> bool, i: nat): string
    requires i < |subDirs|
  {
    Branch(i, |subDirs|) + " " + DisplayName(dir, subDirs[i], isDir)
  }

  /** The lines of the drawing after n entries: the shown path, then one
      line per entry. */
  function TreeLines(dir: string, subDirs: seq<string>, isDir: string -> bool, n: nat): (lines: seq<string>)
    requires n <= |subDirs|
    ensures |lines| == n + 1
  {
    if n == 0 then [if dir != "" then dir else FallbackTree]
    else TreeLines(dir, subDirs, isDir, n - 1) + [EntryText(dir, subDirs, isDir, n - 1)]
  }

  /** Lines separated by line feeds. */
  function JoinLines(lines: seq<string>): string
    requires |lines| > 0
  {
    if |lines| == 1 then lines[0] else JoinLines(lines[..|lines| - 1]) + "\n" + lines[|lines| - 1]
  }

  function TreeHeading(shown: string): string
  {
    "<p>The directory tree for " + "<span style=\"font-weight: bold;\">" + shown + "</span> (1 - level):</p>"
  }

  /** The whole fragment `html_tree(path, sub_dirs)` returns. */
  function TreeHtml(path: string, subDirs: seq<string>, isDir: string -> bool): string
  {
    var shown := ShownPath(path, isDir);
    TreeHeading(shown) + ("<p class=\"ascii\">" + JoinLines(TreeLines(shown, subDirs, isDir, |subDirs|)) + "</p>")
  }

  /** One more line extends the join by a line feed and that line. */
  lemma JoinLinesSnoc(lines: seq<string>, line: string)
    requires |lines| > 0
    ensures JoinLines(lines + [line]) == JoinLines(lines) + "\n" + line
  {
    assert (lines + [line])[..|lines|] == lines;
  }

  /** The piece the loop appends for entry i is a line feed and its line. */
  lemma EntryPiece(dir: string, subDirs: seq<string>, isDir: string -> bool, i: nat, chars: string, name: string)
    requires i < |subDirs|
    requires chars == Branch(i, |subDirs|) && name == DisplayName(dir, subDirs[i], isDir)
    ensures "\n" + chars + " " + name == "\n" + EntryText(dir, subDirs, isDir, i)
  {
    Assoc4("\n", chars, " ", name);
  }

  /** Appending the piece of entry i to the drawing of the first i
      entries gives the drawing of the first i + 1. */
  lemma EntryStep(ascii: string, dir: string, subDirs: seq<string>, isDir: string -> bool, i: nat,
                  chars: string, name: string)
    requires i < |subDirs| && ascii == JoinLines(TreeLines(dir, subDirs, isDir, i))
    requires chars == Branch(i, |subDirs|) && name == DisplayName(dir, subDirs[i], isDir)
    ensures ascii + ("\n" + chars + " " + name) == JoinLines(TreeLines(dir, subDirs, isDir, i + 1))
  {
    EntryPiece(dir, subDirs, isDir, i, chars, name);
    JoinLinesSnoc(TreeLines(dir, subDirs, isDir, i), EntryText(dir, subDirs, isDir, i));
    Assoc(ascii, "\n", EntryText(dir, subDirs, isDir, i));
  }

  /** The drawing: the shown path, then the entry loop. */
  method RenderAscii(p: string, subDirs: seq<string>, isDir: string -> bool) returns (ascii: string)
    ensures ascii == JoinLines(TreeLines(p, subDirs, isDir, |subDirs|))
  {
    ascii := if p != "" then p else FallbackTree;
    var n := |subDirs|;
    if n > 0 {
      for i := 0 to n
        invariant ascii == JoinLines(TreeLines(p, subDirs, isDir, i))
      {
        var name := subDirs[i];
        if isDir(JoinPath(p, name)) {
          name := name + "/";
        }
        var chars := Branch(i, n);
        EntryStep(ascii, p, subDirs, isDir, i, chars, name);
        ascii := ascii + ("\n" + chars + " " + name);
      }
    }
  }

  /** `html_tree(path, sub_dirs)`. */
  method RenderTree(path: string, subDirs: seq<string>, isDir: string -> bool) returns (html: string)
    ensures html == TreeHtml(path, subDirs, isDir)
  {
    var p := if path != "" then path else DefaultPath;
    p := Slashes(p);
    if isDir(p) {
      p := p + "/";
    }
    html := TreeHeading(p);
    var ascii := RenderAscii(p, subDirs, isDir);
    html := html + ("<p class=\"ascii\">" + ascii + "</p>");
  }

  // ---------------------------------------------------------------------
  // Reading the drawing back line by line

  /** The index of the last line feed of s, or -1 when it has none. */
  function LastNewline(s: string): (k: int)
    ensures -1 <= k < |s|
    ensures k >= 0 ==> s[k] == '\n'
    ensures forall j :: k < j < |s| ==> s[j] != '\n'
  {
    if |s| == 0 then -1
    else if s[|s| - 1] == '\n' then |s| - 1
    else LastNewline(s[..|s| - 1])
  }

  /** s cut at its line feeds. */
  function SplitLines(s: string): (lines: seq<string>)
    ensures |lines| > 0
    decreases |s|
  {
    var k := LastNewline(s);
    if k < 0 then [s] else SplitLines(s[..k]) + [s[k + 1..]]
  }

  lemma LastNewlineAfter(a: string, b: string)
    requires '\n' !in b
    ensures LastNewline(a + "\n" + b) == |a|
  {
    var s := a + "\n" + b;
    var k := LastNewline(s);
    assert s[|a|] == '\n';
  }

  /** Lines without line feeds are recovered from their join. */
  lemma {:induction false} LinesRoundTrip(lines: seq<string>)
    requires |lines| > 0
    requires forall i :: 0 <= i < |lines| ==> '\n' !in lines[i]
    ensures SplitLines(JoinLines(lines)) == lines
  {
    var s := JoinLines(lines);
    if |lines| > 1 {
      var init := lines[..|lines| - 1];
      var last := lines[|lines| - 1];
      assert s == JoinLines(init) + "\n" + last;
      LastNewlineAfter(JoinLines(init), last);
      assert s[..|JoinLines(init)|] == JoinLines(init);
      assert s[|JoinLines(init)| + 1..] == last;
      LinesRoundTrip(init);
      assert lines == init + [last];
    }
  }

  // ---------------------------------------------------------------------
  // What the fragment promises

  lemma NoBackslash(s: string)
    ensures '\\' !in Slashes(s)
  {
    var r := Slashes(s);
    assert forall i :: 0 <= i < |r| ==> r[i] != '\\';
  }

  /** The shown path is never empty and holds no backslash; it is the
      path (or `this device`) with backslashes made slashes, followed by
      one slash exactly when that names a directory. */
  lemma ShownPathRules(path: string, isDir: string -> bool)
    ensures var base := Slashes(if path != "" then path else DefaultPath);
      var shown := ShownPath(path, isDir);
      && shown != ""
      && '\\' !in shown
      && base <= shown
      && (|shown| == |base| + 1 <==> isDir(base))
      && (|shown| == |base| + 1 ==> shown[|base|] == '/')
      && (isDir(base) ==> shown == base + "/")
      && (!isDir(base) ==> shown == base)
      && (path == "" ==> |base| == |DefaultPath|)
      && (path != "" ==> |base| == |path|)
  {
    var base := Slashes(if path != "" then path else DefaultPath);
    NoBackslash(if path != "" then path else DefaultPath);
    if isDir(base) {
      assert ShownPath(path, isDir) == base + "/";
      assert (base + "/")[..|base|] == base;
    }
  }

  lemma {:induction false} TreeLinesAt(dir: string, subDirs: seq<string>, isDir: string -> bool, n: nat)
    requires n <= |subDirs| && dir != ""
    ensures |TreeLines(dir, subDirs, isDir, n)| == n + 1
    ensures TreeLines(dir, subDirs, isDir, n)[0] == dir
    ensures forall k :: 1 <= k <= n ==> TreeLines(dir, subDirs, isDir, n)[k] == EntryText(dir, subDirs, isDir, k - 1)
  {
    if n > 0 {
      TreeLinesAt(dir, subDirs, isDir, n - 1);
      var prev := TreeLines(dir, subDirs, isDir, n - 1);
      var lines := TreeLines(dir, subDirs, isDir, n);
      var last := EntryText(dir, subDirs, isDir, n - 1);
      SnocAt(prev, last, lines);
      forall k | 1 <= k <= n
        ensures lines[k] == EntryText(dir, subDirs, isDir, k - 1)
      {
        if k < n {
          assert lines[k] == prev[k];
        } else {
          assert lines[k] == last;
        }
      }
    }
  }

  /** The drawing starts with the shown path itself, so the fallback
      first line `This device/` never appears; it then has one line per
      sub-directory, in the given order. */
  lemma TreeLinesShape(path: string, subDirs: seq<string>, isDir: string -> bool)
    ensures var shown := ShownPath(path, isDir);
      var lines := TreeLines(shown, subDirs, isDir, |subDirs|);
      && |lines| == |subDirs| + 1
      && lines[0] == shown
      && forall k :: 1 <= k <= |subDirs| ==> lines[k] == EntryText(shown, subDirs, isDir, k - 1)
  {
    ShownPathRules(path, isDir);
    TreeLinesAt(ShownPath(path, isDir), subDirs, isDir, |subDirs|);
  }

  /** Entry i starts with `└──` exactly when it is the last entry and with
      `├──` otherwise; after the branch and a space comes the name, with a
      slash exactly when it names a directory inside the shown path. */
  lemma EntryRules(dir: string, subDirs: seq<string>, isDir: string -> bool, i: nat)
    requires i < |subDirs|
    ensures var e := EntryText(dir, subDirs, isDir, i);
      && (CornerBranch <= e <==> i == |subDirs| - 1)
      && (PipeBranch <= e <==> i < |subDirs| - 1)
      && |e| >= 4 && e[3] == ' '
      && (isDir(JoinPath(dir, subDirs[i])) ==> e[4..] == subDirs[i] + "/")
      && (!isDir(JoinPath(dir, subDirs[i])) ==> e[4..] == subDirs[i])
  {
    var e := EntryText(dir, subDirs, isDir, i);
    var b := Branch(i, |subDirs|);
    var name := DisplayName(dir, subDirs[i], isDir);
    assert e == b + (" " + name);
    assert e[..3] == b && e[4..] == name;
    assert CornerBranch[0] != PipeBranch[0];
  }

  /** Without sub-directories the drawing is the shown path alone. */
  lemma EmptyTree(path: string, isDir: string -> bool)
    ensures TreeHtml(path, [], isDir)
            == TreeHeading(ShownPath(path, isDir)) + ("<p class=\"ascii\">" + ShownPath(path, isDir) + "</p>")
  {
    ShownPathRules(path, isDir);
  }

  /** When neither the path nor a name holds a line feed, the drawing
      splits back into exactly its lines: the shown path, then one line
      per sub-directory. */
  lemma TreeReadsBack(path: string, subDirs: seq<string>, isDir: string -> bool)
    requires '\n' !in path
    requires forall i :: 0 <= i < |subDirs| ==> '\n' !in subDirs[i]
    ensures var shown := ShownPath(path, isDir);
      SplitLines(JoinLines(TreeLines(shown, subDirs, isDir, |subDirs|)))
      == TreeLines(shown, subDirs, isDir, |subDirs|)
  {
    var shown := ShownPath(path, isDir);
    var lines := TreeLines(shown, subDirs, isDir, |subDirs|);
    TreeLinesShape(path, subDirs, isDir);
    ShownHasNoNewline(path, isDir);
    forall k | 0 <= k < |lines|
      ensures '\n' !in lines[k]
    {
      if k > 0 {
        EntryHasNoNewline(shown, subDirs, isDir, k - 1);
      }
    }
    LinesRoundTrip(lines);
  }

  lemma ShownHasNoNewline(path: string, isDir: string -> bool)
    requires '\n' !in path
    ensures '\n' !in ShownPath(path, isDir)
  {
    var p := if path != "" then path else DefaultPath;
    var base := Slashes(p);
    assert '\n' !in p;
    assert forall i :: 0 <= i < |base| ==> base[i] != '\n';
  }

  lemma EntryHasNoNewline(dir: string, subDirs: seq<string>, isDir: string -> bool, i: nat)
    requires i < |subDirs| && '\n' !in subDirs[i]
    ensures '\n' !in EntryText(dir, subDirs, isDir, i)
  {
    var b := Branch(i, |subDirs|);
    assert '\n' !in b;
    assert '\n' !in DisplayName(dir, subDirs[i], isDir);
  }

  lemma SlashesKeeps(s: string)
    requires '\\' !in s
    ensures Slashes(s) == s
  {
  }

  /** The file system of the example below: only `/tmp` is a directory. */
  predicate OnlyTmpIsDir(s: string)
  {
    s == "/tmp"
  }

  /** `/tmp` is a directory holding the plain files `a` and `b`. */
  lemma TmpExample()
    ensures JoinLines(TreeLines(ShownPath("/tmp", OnlyTmpIsDir), ["a", "b"], OnlyTmpIsDir, 2))
            == "/tmp/" + "\n" + (PipeBranch + " " + "a") + "\n" + (CornerBranch + " " + "b")
  {
    SlashesKeeps("/tmp");
    var shown := ShownPath("/tmp", OnlyTmpIsDir);
    assert shown == "/tmp/";
    assert JoinPath(shown, "a") == "/tmp/a" && JoinPath(shown, "b") == "/tmp/b";
    assert DisplayName(shown, "a", OnlyTmpIsDir) == "a";
    assert DisplayName(shown, "b", OnlyTmpIsDir) == "b";
    var names := ["a", "b"];
    var e0 := PipeBranch + " " + "a";
    var e1 := CornerBranch + " " + "b";
    assert EntryText(shown, names, OnlyTmpIsDir, 0) == e0;
    assert EntryText(shown, names, OnlyTmpIsDir, 1) == e1;
    assert TreeLines(shown, names, OnlyTmpIsDir, 0) == [shown];
    assert TreeLines(shown, names, OnlyTmpIsDir, 1) == [shown, e0];
    assert TreeLines(shown, names, OnlyTmpIsDir, 2) == [shown, e0, e1];
    JoinLinesSnoc([shown], e0);
    JoinLinesSnoc([shown, e0], e1);
  }
}
