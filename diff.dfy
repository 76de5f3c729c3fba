/** The naive positional line diff used to describe staged changes, and the
    per-file sections built from it for the commit-message request. */
module Diff {
  import opened Wrappers
  import opened Strings
  import opened FileSystem

  /** One output line: kept, removed from the original, or added. */
  datatype DiffLine = Context(text: string) | Removed(text: string) | Added(text: string)

  /** `s.split('\n')`: the empty text is one empty line. */
  function Lines(s: string): (r: seq<string>)
    ensures |r| >= 1
    ensures forall k :: 0 <= k < |r| ==> '\n' !in r[k]
  {
    Split(s, '\n')
  }

  function Rest(s: seq<string>): seq<string>
  {
    if |s| > 0 then s[1..] else s
  }

  /** The diff of two line lists, cursor by cursor: equal lines under both
      cursors are kept; otherwise the original's line (if any) is removed and
      the modified one's (if any) added, and both cursors move on. Lines are
      never realigned. */
  function PositionalDiff(a: seq<string>, b: seq<string>): seq<DiffLine>
    decreases |a| + |b|
  {
    if |a| == 0 && |b| == 0 then []
    else if |a| > 0 && |b| > 0 && a[0] == b[0] then [Context(a[0])] + PositionalDiff(a[1..], b[1..])
    else (if |a| > 0 then [Removed(a[0])] else []) + (if |b| > 0 then [Added(b[0])] else [])
         + PositionalDiff(Rest(a), Rest(b))
  }

  function Marker(l: DiffLine): char
  {
    match l
    case Context(_) => ' '
    case Removed(_) => '-'
    case Added(_) => '+'
  }

  /** A line as printed: its marker, its text, a line break. */
  function Printed(l: DiffLine): string
  {
    [Marker(l)] + l.text + "\n"
  }

  function Render(ls: seq<DiffLine>): string
  {
    if |ls| == 0 then "" else Printed(ls[0]) + Render(ls[1..])
  }

  lemma {:induction false} RenderAppend(x: seq<DiffLine>, y: seq<DiffLine>)
    ensures Render(x + y) == Render(x) + Render(y)
  {
    if |x| > 0 {
      assert Render(x + y) == Printed(x[0]) + Render(x[1..] + y) by {
        assert (x + y)[0] == x[0] && (x + y)[1..] == x[1..] + y;
      }
      RenderAppend(x[1..], y);
      ConcatAssoc(Printed(x[0]), Render(x[1..]), Render(y));
    } else {
      assert x + y == y;
    }
  }

  /** The original's line a diff line stands for, if any. */
  function OriginalOf(l: DiffLine): seq<string>
  {
    if l.Added? then [] else [l.text]
  }

  /** The modified text's line a diff line stands for, if any. */
  function ModifiedOf(l: DiffLine): seq<string>
  {
    if l.Removed? then [] else [l.text]
  }

  /** The original's lines, read back from a diff: kept and removed lines. */
  function Originals(ls: seq<DiffLine>): seq<string>
  {
    if |ls| == 0 then [] else OriginalOf(ls[0]) + Originals(ls[1..])
  }

  /** The modified text's lines, read back from a diff: kept and added lines. */
  function Modifieds(ls: seq<DiffLine>): seq<string>
  {
    if |ls| == 0 then [] else ModifiedOf(ls[0]) + Modifieds(ls[1..])
  }

  lemma {:induction false} OriginalsAppend(x: seq<DiffLine>, y: seq<DiffLine>)
    ensures Originals(x + y) == Originals(x) + Originals(y)
  {
    if |x| > 0 {
      assert Originals(x + y) == OriginalOf(x[0]) + Originals(x[1..] + y) by {
        assert (x + y)[0] == x[0] && (x + y)[1..] == x[1..] + y;
      }
      OriginalsAppend(x[1..], y);
      ConcatAssoc(OriginalOf(x[0]), Originals(x[1..]), Originals(y));
    } else {
      assert x + y == y;
    }
  }

  lemma {:induction false} ModifiedsAppend(x: seq<DiffLine>, y: seq<DiffLine>)
    ensures Modifieds(x + y) == Modifieds(x) + Modifieds(y)
  {
    if |x| > 0 {
      assert Modifieds(x + y) == ModifiedOf(x[0]) + Modifieds(x[1..] + y) by {
        assert (x + y)[0] == x[0] && (x + y)[1..] == x[1..] + y;
      }
      ModifiedsAppend(x[1..], y);
      ConcatAssoc(ModifiedOf(x[0]), Modifieds(x[1..]), Modifieds(y));
    } else {
      assert x + y == y;
    }
  }

  /** Every original line appears in the diff, in order, exactly once, as a
      kept or removed line; every modified line likewise as a kept or added
      line. */
  lemma DiffKeepsBothSides(a: seq<string>, b: seq<string>)
    ensures Originals(PositionalDiff(a, b)) == a
    ensures Modifieds(PositionalDiff(a, b)) == b
  {
    DiffKeepsOriginal(a, b);
    DiffKeepsModified(a, b);
  }

  /** The lines one step of the diff walk prints. */
  function StepLines(a: seq<string>, b: seq<string>): seq<DiffLine>
  {
    if |a| > 0 && |b| > 0 && a[0] == b[0] then [Context(a[0])]
    else (if |a| > 0 then [Removed(a[0])] else []) + (if |b| > 0 then [Added(b[0])] else [])
  }

  /** A diff is its first step followed by the diff of what is left. */
  lemma DiffStep(a: seq<string>, b: seq<string>)
    requires |a| > 0 || |b| > 0
    ensures PositionalDiff(a, b) == StepLines(a, b) + PositionalDiff(Rest(a), Rest(b))
  {
  }

  /** The line under each cursor, if any. */
  function Front(s: seq<string>): seq<string>
  {
    if |s| > 0 then [s[0]] else []
  }

  lemma FrontRest(s: seq<string>)
    ensures Front(s) + Rest(s) == s
  {
    if |s| > 0 {
      assert [s[0]] + s[1..] == s;
    } else {
      assert [] + s == s;
    }
  }

  /** One step reads back as the original's line under the cursor and as the
      modified text's line under the cursor. */
  lemma StepLinesSides(a: seq<string>, b: seq<string>)
    ensures Originals(StepLines(a, b)) == Front(a)
    ensures Modifieds(StepLines(a, b)) == Front(b)
  {
    if |a| > 0 && |b| > 0 && a[0] != b[0] {
      var r, d := Removed(a[0]), Added(b[0]);
      assert StepLines(a, b) == [r, d];
      assert [r, d][1..] == [d];
      assert Originals([r, d]) == [a[0]] + Originals([d]);
      assert Modifieds([r, d]) == [] + Modifieds([d]);
    } else if |a| > 0 && |b| == 0 {
      assert StepLines(a, b) == [Removed(a[0])];
    } else if |a| == 0 && |b| > 0 {
      assert StepLines(a, b) == [Added(b[0])];
    }
  }

  lemma {:induction false} DiffKeepsOriginal(a: seq<string>, b: seq<string>)
    ensures Originals(PositionalDiff(a, b)) == a
    decreases |a| + |b|
  {
    if |a| > 0 || |b| > 0 {
      var tail := PositionalDiff(Rest(a), Rest(b));
      DiffStep(a, b);
      DiffKeepsOriginal(Rest(a), Rest(b));
      OriginalsAppend(StepLines(a, b), tail);
      StepLinesSides(a, b);
      FrontRest(a);
    }
  }

  lemma {:induction false} DiffKeepsModified(a: seq<string>, b: seq<string>)
    ensures Modifieds(PositionalDiff(a, b)) == b
    decreases |a| + |b|
  {
    if |a| > 0 || |b| > 0 {
      var tail := PositionalDiff(Rest(a), Rest(b));
      DiffStep(a, b);
      DiffKeepsModified(Rest(a), Rest(b));
      ModifiedsAppend(StepLines(a, b), tail);
      StepLinesSides(a, b);
      FrontRest(b);
    }
  }

  /** A diff never has fewer lines than either side nor more than both. */
  lemma {:induction false} DiffLength(a: seq<string>, b: seq<string>)
    ensures |a| <= |PositionalDiff(a, b)| && |b| <= |PositionalDiff(a, b)|
    ensures |PositionalDiff(a, b)| <= |a| + |b|
    decreases |a| + |b|
  {
    if |a| == 0 && |b| == 0 {
    } else if |a| > 0 && |b| > 0 && a[0] == b[0] {
      DiffLength(a[1..], b[1..]);
    } else {
      DiffLength(Rest(a), Rest(b));
    }
  }

  /** Comparing a text with itself keeps every line. */
  lemma {:induction false} DiffOfSame(a: seq<string>)
    ensures |PositionalDiff(a, a)| == |a|
    ensures forall k :: 0 <= k < |a| ==> PositionalDiff(a, a)[k] == Context(a[k])
  {
    if |a| > 0 {
      DiffOfSame(a[1..]);
    }
  }

  /** The printed lines without their line breaks. */
  function Shown(ls: seq<DiffLine>): (r: seq<string>)
    ensures |r| == |ls|
    ensures forall k :: 0 <= k < |ls| ==> r[k] == [Marker(ls[k])] + ls[k].text
  {
    if |ls| == 0 then [] else [[Marker(ls[0])] + ls[0].text] + Shown(ls[1..])
  }

  /** Printed diff lines followed by any text split, at line breaks, into
      the shown lines followed by the pieces of that text: every printed
      line ends in exactly one line break. */
  lemma {:induction false} SplitRendered(ls: seq<DiffLine>, rest: string)
    requires forall k :: 0 <= k < |ls| ==> '\n' !in ls[k].text
    ensures Split(Render(ls) + rest, '\n') == Shown(ls) + Split(rest, '\n')
  {
    if |ls| > 0 {
      var head := [Marker(ls[0])] + ls[0].text;
      var tail := Render(ls[1..]) + rest;
      assert Render(ls) + rest == head + ['\n'] + tail by {
        ConcatAssoc(Printed(ls[0]), Render(ls[1..]), rest);
      }
      SplitAfterHead(head, '\n', tail);
      SplitRendered(ls[1..], rest);
      ConcatAssoc([head], Shown(ls[1..]), Split(rest, '\n'));
    } else {
      assert Render(ls) + rest == rest;
    }
  }

  /** A printed diff splits into its shown lines and one empty piece after
      the final break. */
  lemma RenderSplitsIntoLines(ls: seq<DiffLine>)
    requires forall k :: 0 <= k < |ls| ==> '\n' !in ls[k].text
    ensures Split(Render(ls), '\n') == Shown(ls) + [""]
  {
    SplitRendered(ls, "");
    assert Render(ls) + "" == Render(ls);
  }

  /** The diff of two suffixes, one cursor step unfolded: equal lines under
      the cursors are kept and both cursors advance. */
  lemma DiffStepKeep(a: seq<string>, b: seq<string>, i: nat, j: nat)
    requires i < |a| && j < |b| && a[i] == b[j]
    ensures Render(PositionalDiff(a[i..], b[j..]))
            == Printed(Context(a[i])) + Render(PositionalDiff(a[i + 1..], b[j + 1..]))
  {
    assert PositionalDiff(a[i..], b[j..]) == [Context(a[i])] + PositionalDiff(a[i + 1..], b[j + 1..]) by {
      assert a[i..][1..] == a[i + 1..] && b[j..][1..] == b[j + 1..];
    }
    RenderAppend([Context(a[i])], PositionalDiff(a[i + 1..], b[j + 1..]));
  }

  /** The printed lines for a removal (if the original has a line left) and
      an addition (if the modified text has one left). */
  function Replaced(a: seq<string>, b: seq<string>, i: nat, j: nat): string
  {
    (if i < |a| then Printed(Removed(a[i])) else "") + (if j < |b| then Printed(Added(b[j])) else "")
  }

  /** One line printed in front of a diff. */
  lemma RenderCons(l: DiffLine, tail: seq<DiffLine>)
    ensures Render([l] + tail) == Printed(l) + Render(tail)
  {
    assert ([l] + tail)[0] == l && ([l] + tail)[1..] == tail;
  }

  /** First lines that differ: a removal and an addition. */
  lemma DiffStepBoth(x: seq<string>, y: seq<string>)
    requires |x| > 0 && |y| > 0 && x[0] != y[0]
    ensures Render(PositionalDiff(x, y))
            == Printed(Removed(x[0])) + Printed(Added(y[0])) + Render(PositionalDiff(x[1..], y[1..]))
  {
    var r, d := Removed(x[0]), Added(y[0]);
    var tail := PositionalDiff(x[1..], y[1..]);
    assert PositionalDiff(x, y) == [r] + ([d] + tail) by {
      ConcatAssoc([r], [d], tail);
    }
    RenderCons(r, [d] + tail);
    RenderCons(d, tail);
    ConcatAssoc(Printed(r), Printed(d), Render(tail));
  }

  /** The modified side is exhausted: a removal. */
  lemma DiffStepRemoved(x: seq<string>, y: seq<string>)
    requires |x| > 0 && |y| == 0
    ensures Render(PositionalDiff(x, y)) == Printed(Removed(x[0])) + Render(PositionalDiff(x[1..], y))
  {
    var tail := PositionalDiff(x[1..], y);
    assert PositionalDiff(x, y) == [Removed(x[0])] + tail by {
      assert [Removed(x[0])] + [] == [Removed(x[0])];
    }
    RenderCons(Removed(x[0]), tail);
  }

  /** The original side is exhausted: an addition. */
  lemma DiffStepAdded(x: seq<string>, y: seq<string>)
    requires |x| == 0 && |y| > 0
    ensures Render(PositionalDiff(x, y)) == Printed(Added(y[0])) + Render(PositionalDiff(x, y[1..]))
  {
    var tail := PositionalDiff(x, y[1..]);
    assert PositionalDiff(x, y) == [Added(y[0])] + tail by {
      assert [] + [Added(y[0])] == [Added(y[0])];
    }
    RenderCons(Added(y[0]), tail);
  }

  /** The diff of two suffixes, one cursor step unfolded when the lines
      under the cursors differ or one side is exhausted. */
  lemma DiffStepReplace(a: seq<string>, b: seq<string>, i: nat, j: nat)
    requires i <= |a| && j <= |b| && (i < |a| || j < |b|)
    requires !(i < |a| && j < |b| && a[i] == b[j])
    ensures Render(PositionalDiff(a[i..], b[j..]))
            == Replaced(a, b, i, j)
               + Render(PositionalDiff(a[if i < |a| then i + 1 else i..], b[if j < |b| then j + 1 else j..]))
  {
    if i < |a| {
      assert a[i..][0] == a[i] && a[i..][1..] == a[i + 1..];
    }
    if j < |b| {
      assert b[j..][0] == b[j] && b[j..][1..] == b[j + 1..];
    }
    if i < |a| && j < |b| {
      DiffStepBoth(a[i..], b[j..]);
    } else if i < |a| {
      DiffStepRemoved(a[i..], b[j..]);
      assert Replaced(a, b, i, j) == Printed(Removed(a[i]));
    } else {
      DiffStepAdded(a[i..], b[j..]);
      assert Replaced(a, b, i, j) == Printed(Added(b[j]));
    }
  }

  /** `generateDiff(original, modified)`: splits both texts into lines and
      walks them with two cursors, appending one printed line per step. */
  method GenerateDiff(original: string, modified: string) returns (diff: string)
    ensures diff == Render(PositionalDiff(Lines(original), Lines(modified)))
  {
    var a := Lines(original);
    var b := Lines(modified);
    diff := "";
    var i, j := 0, 0;
    while i < |a| || j < |b|
      invariant 0 <= i <= |a| && 0 <= j <= |b|
      invariant diff + Render(PositionalDiff(a[i..], b[j..])) == Render(PositionalDiff(a, b))
      decreases (|a| - i) + (|b| - j)
    {
      var lines := "";
      var i', j' := i, j;
      if i < |a| && j < |b| && a[i] == b[j] {
        DiffStepKeep(a, b, i, j);
        lines := " " + a[i] + "\n";
        i', j' := i + 1, j + 1;
      } else {
        DiffStepReplace(a, b, i, j);
        var removed, added := "", "";
        if i < |a| {
          removed := "-" + a[i] + "\n";
          i' := i + 1;
        }
        if j < |b| {
          added := "+" + b[j] + "\n";
          j' := j + 1;
        }
        lines := removed + added;
        assert lines == Replaced(a, b, i, j);
      }
      ghost var tail := Render(PositionalDiff(a[i'..], b[j'..]));
      assert lines + tail == Render(PositionalDiff(a[i..], b[j..]));
      ConcatAssoc(diff, lines, tail);
      diff := diff + lines;
      i, j := i', j';
    }
    assert a[i..] == [] && b[j..] == [];
  }

  /** The per-file section of the staged diff: the two header lines, the
      diff, and a blank line. */
  function FileSection(path: string, original: string, current: string): string
  {
    "--- a/" + path + "\n+++ b/" + path + "\n"
    + Render(PositionalDiff(Lines(original), Lines(current))) + "\n"
  }

  /** Two header lines, printed diff lines and a closing break split into
      the headers, the shown lines and two empty pieces. */
  lemma SplitSection(h1: string, h2: string, ls: seq<DiffLine>)
    requires '\n' !in h1 && '\n' !in h2
    requires forall k :: 0 <= k < |ls| ==> '\n' !in ls[k].text
    ensures Split(h1 + "\n" + h2 + "\n" + Render(ls) + "\n", '\n') == [h1, h2] + Shown(ls) + ["", ""]
  {
    var body := Render(ls) + "\n";
    var tail := Split(body, '\n');
    assert tail == Shown(ls) + ["", ""] by {
      SplitRendered(ls, "\n");
      assert Split("\n", '\n') == ["", ""] by {
        assert Split("", '\n') == [""];
      }
    }
    var x, y := h1 + "\n", h2 + "\n";
    assert h1 + "\n" + h2 + "\n" + Render(ls) + "\n" == x + (y + body) by {
      ConcatAssoc(x, h2, "\n");
      ConcatAssoc(x + y, Render(ls), "\n");
      ConcatAssoc(x, y, body);
    }
    assert Split(x + (y + body), '\n') == [h1, h2] + tail by {
      SplitAfterHead(h1, '\n', y + body);
      SplitAfterHead(h2, '\n', body);
    }
    ConcatAssoc([h1, h2], Shown(ls), ["", ""]);
  }

  /** A section splits into the header lines naming the path, one line per
      diff line, and the two empty pieces of the closing breaks. */
  lemma SectionLines(path: string, original: string, current: string)
    requires '\n' !in path
    ensures Split(FileSection(path, original, current), '\n')
            == ["--- a/" + path, "+++ b/" + path]
               + Shown(PositionalDiff(Lines(original), Lines(current))) + ["", ""]
  {
    var a, b := Lines(original), Lines(current);
    var ls := PositionalDiff(a, b);
    forall k | 0 <= k < |ls| ensures '\n' !in ls[k].text {
      DiffLineFrom(a, b, k);
    }
    var h1, h2 := "--- a/" + path, "+++ b/" + path;
    assert FileSection(path, original, current) == h1 + "\n" + h2 + "\n" + Render(ls) + "\n";
    SplitSection(h1, h2, ls);
  }

  /** Every diff line's text is a line of one of the two sides. */
  lemma {:induction false} DiffLineFrom(a: seq<string>, b: seq<string>, k: nat)
    requires k < |PositionalDiff(a, b)|
    ensures PositionalDiff(a, b)[k].text in a || PositionalDiff(a, b)[k].text in b
    decreases |a| + |b|
  {
    if |a| > 0 && |b| > 0 && a[0] == b[0] {
      if k > 0 { DiffLineFrom(a[1..], b[1..], k - 1); }
    } else {
      var n := (if |a| > 0 then 1 else 0) + (if |b| > 0 then 1 else 0);
      if k >= n {
        DiffLineFrom(Rest(a), Rest(b), k - n);
      }
    }
  }

  /** The staged diff text: the sections of the given paths in order, each
      comparing a path's content in the base tree with its content in the
      current tree (the empty text where a path has none). */
  function StagedDiffText(paths: seq<string>, base: Dir, fs: Dir): string
  {
    if |paths| == 0 then ""
    else
      var path := paths[|paths| - 1];
      StagedDiffText(paths[..|paths| - 1], base, fs)
      + FileSection(path, ContentOf(base, path).GetOr(""), ContentOf(fs, path).GetOr(""))
  }

  /** The loop of `generateCommitMessage` that builds the staged diff, one
      section per staged path; the workspace passes the initial tree as the
      base. */
  method StagedDiff(paths: seq<string>, base: Dir, fs: Dir) returns (diff: string)
    ensures diff == StagedDiffText(paths, base, fs)
  {
    diff := "";
    var i := 0;
    while i < |paths|
      invariant 0 <= i <= |paths|
      invariant diff == StagedDiffText(paths[..i], base, fs)
    {
      var path := paths[i];
      var original := GetFileContent(base, path);
      var current := GetFileContent(fs, path);
      var lines := GenerateDiff(original.GetOr(""), current.GetOr(""));
      var section := "--- a/" + path + "\n+++ b/" + path + "\n" + lines + "\n";
      assert section == FileSection(path, original.GetOr(""), current.GetOr(""));
      assert paths[..i + 1][..i] == paths[..i];
      diff := diff + section;
      i := i + 1;
    }
    assert paths[..i] == paths;
  }
}
