/** `combine_subtables`: joining the decorated blocks into one document. */
module Assembler {

  /** The page-break directive that precedes every block, on its own line. */
  const NewPage: string := "\\newpage\n"

  /** `"".join(f"\\newpage\n{lt}" for lt in latex_tables)`: empty exactly when there are no
      blocks, and holding at least one page break's length per block. */
  function CombineSubtables(latexTables: seq<string>): (r: string)
    ensures |r| == 0 <==> |latexTables| == 0
    ensures |r| >= |latexTables| * |NewPage|
  {
    if |latexTables| == 0 then ""
    else NewPage + latexTables[0] + CombineSubtables(latexTables[1..])
  }

  /** Combining is a homomorphism from lists of blocks to text: combining a concatenation of
      block lists is the concatenation of the combined parts. */
  lemma {:induction false} CombineAppend(a: seq<string>, b: seq<string>)
    ensures CombineSubtables(a + b) == CombineSubtables(a) + CombineSubtables(b)
  {
    if |a| == 0 {
      assert a + b == b;
    } else {
      CombineAppend(a[1..], b);
      assert (a + b)[1..] == a[1..] + b;
      var head, rest, tail := NewPage + a[0], CombineSubtables(a[1..]), CombineSubtables(b);
      assert CombineSubtables(a + b) == head + (rest + tail);
      Assoc(head, rest, tail);
    }
  }

  /** No blocks give the empty document, and one block is preceded by one page break. */
  lemma CombineBase(block: string)
    ensures CombineSubtables([]) == ""
    ensures CombineSubtables([block]) == NewPage + block
  {
  }

  /** Every block appears in the document, in order, right after its own page break: the text
      before it is the combination of the blocks before it, the text after it that of the
      blocks after it. */
  lemma CombineAt(latexTables: seq<string>, i: nat)
    requires i < |latexTables|
    ensures CombineSubtables(latexTables) ==
              CombineSubtables(latexTables[..i]) + NewPage + latexTables[i] +
              CombineSubtables(latexTables[i + 1..])
  {
    var before, after := latexTables[..i], latexTables[i + 1..];
    var block := latexTables[i];
    var mid := [block] + after;
    Around(latexTables, i);
    CombineAppend(before, mid);
    CombineCons(block, after);
    Assoc4(CombineSubtables(before), NewPage, block, CombineSubtables(after));
  }

  lemma Around(s: seq<string>, i: nat)
    requires i < |s|
    ensures s == s[..i] + ([s[i]] + s[i + 1..])
  {
    assert s[i..] == [s[i]] + s[i + 1..];
    assert s == s[..i] + s[i..];
  }

  lemma CombineCons(block: string, rest: seq<string>)
    ensures CombineSubtables([block] + rest) == NewPage + block + CombineSubtables(rest)
  {
    assert ([block] + rest)[1..] == rest;
  }

  /** Regrouping concatenations, kept apart so that the proofs above stay small. */
  lemma Assoc(x: string, y: string, z: string)
    ensures x + (y + z) == (x + y) + z
  {
  }

  lemma Assoc4(w: string, x: string, y: string, z: string)
    ensures w + (x + y + z) == w + x + y + z
  {
  }

  /** The document opens with a page break followed by the start of the first block. */
  lemma CombineStart(latexTables: seq<string>, p: string)
    requires |latexTables| >= 1 && p <= latexTables[0]
    ensures NewPage + p <= CombineSubtables(latexTables)
  {
    var first, tail := latexTables[0], CombineSubtables(latexTables[1..]);
    assert CombineSubtables(latexTables) == NewPage + first + tail;
    PrefixInside(NewPage, p, first, tail);
  }

  /** A prefix of the middle part, after the front part, begins the whole. */
  lemma PrefixInside(front: string, p: string, middle: string, back: string)
    requires p <= middle
    ensures front + p <= front + middle + back
  {
    assert middle == p + middle[|p|..];
    assert front + middle + back == front + p + (middle[|p|..] + back);
  }
}
