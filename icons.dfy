/** The icon a directory entry is shown with, chosen from its name's extension. */
module Icons {

  const FileIcon: string := "/src-tauri/icons/icons8-file-24.png"
  const FolderIcon: string := "/src-tauri/icons/icons8-folder-24.png"

  /** The fixed four-entry table from extension to icon. */
  const IconMap: map<string, string> :=
    map["txt" := FileIcon, "jpg" := FileIcon, "pdf" := FileIcon, "dir" := FolderIcon]

  function Last<T>(s: seq<T>): T
    requires |s| > 0
  {
    s[|s| - 1]
  }

  /** The pieces glued back together with a `.` between neighbours. */
  function Join(parts: seq<string>): string
    requires |parts| > 0
  {
    if |parts| == 1 then parts[0]
    else Join(parts[..|parts| - 1]) + "." + Last(parts)
  }

  /** A non-empty sequence is its prefix followed by its last element. */
  lemma DropLast<T>(s: seq<T>)
    requires s != []
    ensures s[..|s| - 1] + [s[|s| - 1]] == s
  {
  }

  /** No piece contains a dot. */
  predicate DotFree(parts: seq<string>)
  {
    forall i :: 0 <= i < |parts| ==> '.' !in parts[i]
  }

  /** The pieces are dot-free exactly when the front pieces and the last one are. */
  lemma DotFreeSplit(front: seq<string>, p: string)
    ensures DotFree(front + [p]) <==> DotFree(front) && '.' !in p
  {
    if DotFree(front + [p]) {
      assert forall i :: 0 <= i < |front| ==> (front + [p])[i] == front[i];
      assert (front + [p])[|front|] == p;
    }
  }

  /** Appending a piece appends a dot and the piece. */
  lemma JoinSnoc(parts: seq<string>, p: string)
    requires |parts| > 0
    ensures Join(parts + [p]) == Join(parts) + "." + p
  {
    assert (parts + [p])[..|parts|] == parts;
  }

  /** Extending the last piece by a character extends the join by it. */
  lemma JoinExtendLast(init: seq<string>, p: string, c: char)
    ensures Join(init + [p + [c]]) == Join(init + [p]) + [c]
  {
    if init == [] {
      assert init + [p + [c]] == [p + [c]] && init + [p] == [p];
    } else {
      JoinSnoc(init, p);
      JoinSnoc(init, p + [c]);
      var j := Join(init) + ".";
      assert j + (p + [c]) == (j + p) + [c];
    }
  }

  /**
   * `str::split('.')`: the pieces between the dots, in order. There is always at
   * least one piece; the empty string and a trailing dot give an empty piece.
   * Defined by adding one character at a time at the end.
   */
  function Split(s: string): (r: seq<string>)
    ensures |r| > 0
    ensures DotFree(r)
    decreases |s|
  {
    if s == [] then [""]
    else
      var init := Split(s[..|s| - 1]);
      var c := s[|s| - 1];
      var front, p := init[..|init| - 1], Last(init);
      DropLast(init);
      DotFreeSplit(front, p);
      if c == '.' then
        DotFreeSplit(init, "");
        init + [""]
      else
        DotFreeSplit(front, p + [c]);
        front + [p + [c]]
  }

  /** Joining the pieces of `split('.')` gives the string back. */
  lemma {:induction false} JoinSplit(s: string)
    ensures Join(Split(s)) == s
    decreases |s|
  {
    if s != [] {
      var init := Split(s[..|s| - 1]);
      var front, p := init[..|init| - 1], Last(init);
      JoinSplit(s[..|s| - 1]);
      DropLast(s);
      DropLast(init);
      if s[|s| - 1] == '.' {
        JoinSnoc(init, "");
      } else {
        JoinExtendLast(front, p, s[|s| - 1]);
      }
    }
  }

  /**
   * Independent description of the last piece: the longest suffix without a dot.
   * Either it is the whole string, or a dot stands right before it.
   */
  ghost predicate IsLastSegment(s: string, e: string)
  {
    |e| <= |s| && e == s[|s| - |e|..] && '.' !in e &&
    (|e| < |s| ==> s[|s| - |e| - 1] == '.')
  }

  /** Adding a character other than a dot extends the last segment by it. */
  lemma LastSegmentSnoc(s: string, e: string, c: char)
    requires IsLastSegment(s, e) && c != '.'
    ensures IsLastSegment(s + [c], e + [c])
  {
    var t := s + [c];
    assert t[|t| - |e| - 1..] == s[|s| - |e|..] + [c];
    if |e| < |s| {
      assert t[|t| - |e| - 2] == s[|s| - |e| - 1];
    }
  }

  /** The last piece of `split('.')` is the text after the last dot, or all of `s`. */
  lemma {:induction false} LastPieceIsLastSegment(s: string)
    ensures IsLastSegment(s, Last(Split(s)))
    decreases |s|
  {
    if s != [] {
      var init := s[..|s| - 1];
      var c := s[|s| - 1];
      if c != '.' {
        LastPieceIsLastSegment(init);
        LastSegmentSnoc(init, Last(Split(init)), c);
        DropLast(s);
      }
    }
  }

  /** Only one string is the last segment of `s`. */
  lemma LastSegmentUnique(s: string, e1: string, e2: string)
    requires IsLastSegment(s, e1) && IsLastSegment(s, e2)
    ensures e1 == e2
  {
  }

  /** Splitting after appending `.` and a dot-free piece adds exactly that piece. */
  lemma {:induction false} SplitAppend(x: string, p: string)
    requires '.' !in p
    ensures Split(x + "." + p) == Split(x) + [p]
    decreases |p|
  {
    if p == [] {
      assert (x + "." + p)[..|x + "." + p| - 1] == x;
    } else {
      var p' := p[..|p| - 1];
      var y := x + "." + p;
      assert y[..|y| - 1] == x + "." + p';
      SplitAppend(x, p');
      assert p == p' + [p[|p| - 1]];
    }
  }

  /** Splitting a join of dot-free pieces gives the pieces back. */
  lemma {:induction false} SplitJoin(parts: seq<string>)
    requires |parts| > 0
    requires DotFree(parts)
    ensures Split(Join(parts)) == parts
    decreases |parts|
  {
    if |parts| == 1 {
      SplitNoDot(parts[0]);
    } else {
      var init := parts[..|parts| - 1];
      SplitJoin(init);
      SplitAppend(Join(init), Last(parts));
      assert init + [Last(parts)] == parts;
    }
  }

  /** A dot-free string is a single piece. */
  lemma {:induction false} SplitNoDot(s: string)
    requires '.' !in s
    ensures Split(s) == [s]
    decreases |s|
  {
    if s != [] {
      assert s[|s| - 1] in s;
      var init := s[..|s| - 1];
      assert forall c :: c in init ==> c in s;
      SplitNoDot(init);
      assert s == init + [s[|s| - 1]];
    }
  }

  /**
   * `get_icon_for_file`: the folder icon for a directory; otherwise the icon that
   * the table gives for the last `.`-piece of the name, falling back to the file
   * icon. `split` never yields zero pieces, so the `"dir"` fallback for a missing
   * last piece is never taken; it is kept here as written.
   */
  function GetIconForFile(fileName: string, isDir: bool): (r: string)
    ensures r == FileIcon || r == FolderIcon
    ensures isDir ==> r == FolderIcon
    ensures r == FolderIcon <==> isDir || Last(Split(fileName)) == "dir"
  {
    if isDir then IconMap["dir"]
    else
      var pieces := Split(fileName);
      var ext := if |pieces| > 0 then Last(pieces) else "dir";
      if ext in IconMap then IconMap[ext] else FileIcon
  }

  /**
   * A file gets the folder icon exactly when the text after its last dot (all of
   * its name, if it has no dot) is `dir`.
   */
  lemma FileFolderIconIffDirSegment(fileName: string, e: string)
    requires IsLastSegment(fileName, e)
    ensures GetIconForFile(fileName, false) == FolderIcon <==> e == "dir"
  {
    LastPieceIsLastSegment(fileName);
    LastSegmentUnique(fileName, e, Last(Split(fileName)));
  }

  /** The listed extensions and any other extension give the file icon, as does a bare name. */
  lemma FileIconCases(fileName: string, e: string)
    requires IsLastSegment(fileName, e)
    requires e != "dir"
    ensures GetIconForFile(fileName, false) == FileIcon
  {
    FileFolderIconIffDirSegment(fileName, e);
  }

  /** A file named with a `.dir` extension shows the folder icon. */
  lemma DirExtensionExample()
    ensures GetIconForFile("backup.dir", false) == FolderIcon
  {
    FileFolderIconIffDirSegment("backup.dir", "dir");
  }

  /** Files with a listed, an unlisted or no extension show the file icon. */
  lemma FileIconExamples()
    ensures GetIconForFile("notes.txt", false) == FileIcon
    ensures GetIconForFile("Makefile", false) == FileIcon
  {
    FileIconCases("notes.txt", "txt");
    FileIconCases("Makefile", "Makefile");
  }
}
