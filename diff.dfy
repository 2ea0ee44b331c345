/** Parsed diff hunks and the text of one side of a file rebuilt from them.

    The parser that produces hunks (`parseDiff`) and the hunk types live in
    modules this model does not include; only the fields the review code
    reads are modelled. */
module Diff {

  /** The kind of a hunk line: unchanged, added on the head side, deleted
      from the base side, or any other line the parser emits (such as a hunk
      header). The enum is declared outside this model, so `Control` stands
      for every kind besides the three the review code names; the properties
      below hold whether or not such lines occur. */
  datatype DiffChangeType = Context | Add | Delete | Control

  datatype DiffLine = DiffLine(kind: DiffChangeType, text: string, oldLineNumber: int, newLineNumber: int)

  /** A hunk: its new-side start line and length, and its lines in order. */
  datatype DiffHunk = DiffHunk(newLineNumber: int, newLength: int, diffLines: seq<DiffLine>)

  /** The lines of all hunks, hunk after hunk. */
  function AllLines(hunks: seq<DiffHunk>): seq<DiffLine>
  {
    if hunks == [] then [] else hunks[0].diffLines + AllLines(hunks[1..])
  }

  /** How many of `lines` are of kind `k`. */
  function Count(lines: seq<DiffLine>, k: DiffChangeType): nat
  {
    if lines == [] then 0 else (if lines[0].kind == k then 1 else 0) + Count(lines[1..], k)
  }

  /** The texts of `lines` whose kind is not `excluded`, in order. */
  function LineTexts(lines: seq<DiffLine>, excluded: DiffChangeType): seq<string>
  {
    if lines == [] then []
    else (if lines[0].kind == excluded then [] else [lines[0].text]) + LineTexts(lines[1..], excluded)
  }

  /** One side of a file as far as the hunks show it: the texts of the lines
      of every hunk, in order, without the lines of kind `excluded` (the
      deleted lines for the head side, the added lines for the base side). */
  function SideLines(hunks: seq<DiffHunk>, excluded: DiffChangeType): seq<string>
  {
    if hunks == [] then [] else LineTexts(hunks[0].diffLines, excluded) + SideLines(hunks[1..], excluded)
  }

  lemma {:induction false} LineTextsLength(lines: seq<DiffLine>, excluded: DiffChangeType)
    ensures |LineTexts(lines, excluded)| + Count(lines, excluded) == |lines|
  {
    if lines != [] {
      LineTextsLength(lines[1..], excluded);
    }
  }

  lemma {:induction false} CountAppend(a: seq<DiffLine>, b: seq<DiffLine>, k: DiffChangeType)
    ensures Count(a + b, k) == Count(a, k) + Count(b, k)
  {
    if a != [] {
      assert (a + b)[1..] == a[1..] + b;
      CountAppend(a[1..], b, k);
    } else {
      assert a + b == b;
    }
  }

  /** A side keeps every line except those of the excluded kind. */
  lemma {:induction false} SideLinesLength(hunks: seq<DiffHunk>, excluded: DiffChangeType)
    ensures |SideLines(hunks, excluded)| + Count(AllLines(hunks), excluded) == |AllLines(hunks)|
  {
    if hunks != [] {
      SideLinesLength(hunks[1..], excluded);
      LineTextsLength(hunks[0].diffLines, excluded);
      CountAppend(hunks[0].diffLines, AllLines(hunks[1..]), excluded);
    }
  }

  /** The head side and the base side together hold every line once, and
      every line that is neither added nor deleted twice. */
  lemma SidesShareContext(hunks: seq<DiffHunk>)
    ensures |SideLines(hunks, Delete)| + |SideLines(hunks, Add)|
         == |AllLines(hunks)| + Count(AllLines(hunks), Context) + Count(AllLines(hunks), Control)
  {
    SideLinesLength(hunks, Delete);
    SideLinesLength(hunks, Add);
    KindsPartition(AllLines(hunks));
  }

  lemma {:induction false} KindsPartition(lines: seq<DiffLine>)
    ensures Count(lines, Context) + Count(lines, Add) + Count(lines, Delete) + Count(lines, Control) == |lines|
  {
    if lines != [] {
      KindsPartition(lines[1..]);
    }
  }

  lemma {:induction false} LineTextsWithout(lines: seq<DiffLine>)
    requires Count(lines, Add) == 0 && Count(lines, Delete) == 0
    ensures LineTexts(lines, Add) == LineTexts(lines, Delete)
  {
    if lines != [] {
      LineTextsWithout(lines[1..]);
    }
  }

  /** Where the hunks change nothing, head and base sides read the same. */
  lemma {:induction false} UnchangedSidesAgree(hunks: seq<DiffHunk>)
    requires Count(AllLines(hunks), Add) == 0 && Count(AllLines(hunks), Delete) == 0
    ensures SideLines(hunks, Delete) == SideLines(hunks, Add)
  {
    if hunks != [] {
      CountAppend(hunks[0].diffLines, AllLines(hunks[1..]), Add);
      CountAppend(hunks[0].diffLines, AllLines(hunks[1..]), Delete);
      LineTextsWithout(hunks[0].diffLines);
      UnchangedSidesAgree(hunks[1..]);
    }
  }

  /** `lines.join('\n')`. */
  function Join(lines: seq<string>): string
  {
    if lines == [] then ""
    else if |lines| == 1 then lines[0]
    else lines[0] + "\n" + Join(lines[1..])
  }

  /** `text.split('\n')`: the pieces between line breaks, never empty. */
  function Split(text: string): (pieces: seq<string>)
    ensures |pieces| >= 1
  {
    if text == [] then [""]
    else
      var rest := Split(text[1..]);
      if text[0] == '\n' then [""] + rest
      else [[text[0]] + rest[0]] + rest[1..]
  }

  lemma {:induction false} SplitWithoutBreak(text: string)
    requires '\n' !in text
    ensures Split(text) == [text]
  {
    if text != [] {
      SplitWithoutBreak(text[1..]);
      assert [text[0]] + text[1..] == text;
    }
  }

  lemma {:induction false} SplitAtFirstBreak(piece: string, rest: string)
    requires '\n' !in piece
    ensures Split(piece + "\n" + rest) == [piece] + Split(rest)
  {
    if piece == [] {
      assert piece + "\n" + rest == "\n" + rest;
      assert ("\n" + rest)[1..] == rest;
    } else {
      SplitAtFirstBreak(piece[1..], rest);
      assert (piece + "\n" + rest)[1..] == piece[1..] + "\n" + rest;
      assert [piece[0]] + piece[1..] == piece;
    }
  }

  /** Splitting joined lines gives the lines back, as long as there is at
      least one line and none holds a line break. */
  lemma {:induction false} SplitJoin(lines: seq<string>)
    requires |lines| >= 1
    requires forall i :: 0 <= i < |lines| ==> '\n' !in lines[i]
    ensures Split(Join(lines)) == lines
  {
    if |lines| == 1 {
      SplitWithoutBreak(lines[0]);
    } else {
      SplitJoin(lines[1..]);
      SplitAtFirstBreak(lines[0], Join(lines[1..]));
    }
  }
}
