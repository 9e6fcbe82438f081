/** `generate_subtables`: cutting a table's columns into sub-tables of a fixed width.
    A table is its sequence of columns; what a column holds does not matter here. */
module Partitioner {
  import opened Results

  /** The first `q` full blocks of `n` columns each: columns `[0, n)`, `[n, 2n)`, ... */
  function FullBlocks<C>(cols: seq<C>, n: int, q: nat): seq<seq<C>>
    requires q == 0 || (n >= 0 && q * n <= |cols|)
    decreases q
  {
    if q == 0 then []
    else
      assert (q - 1) * n == q * n - n;
      FullBlocks(cols, n, q - 1) + [cols[(q - 1) * n .. q * n]]
  }

  /** Python's `divmod(c, n)`: the quotient rounded toward minus infinity and the remainder
      with the sign of the divisor. */
  function FloorDivMod(c: int, n: int): (qr: (int, int))
    requires n != 0
    ensures qr.0 * n + qr.1 == c
    ensures n > 0 ==> 0 <= qr.1 < n
    ensures n < 0 ==> n < qr.1 <= 0
    ensures n < 0 && c >= 0 ==> qr.0 <= 0
  {
    if n < 0 && c % n != 0 then (c / n - 1, c % n + n) else (c / n, c % n)
  }

  /** For a positive divisor Python's `divmod` agrees with Dafny's `/` and `%`. */
  lemma FloorDivModPositive(c: int, n: int)
    requires n > 0
    ensures FloorDivMod(c, n) == (c / n, c % n)
  {
  }

  /** A positive quotient of a non-negative dividend comes from a positive divisor and its full
      blocks fit in the dividend. */
  lemma FloorDivModBound(c: nat, n: int)
    requires n != 0
    ensures FloorDivMod(c, n).0 > 0 ==> n > 0 && FloorDivMod(c, n).0 * n <= c
  {
  }

  /** How many times `for x in range(q)` runs. */
  function Rounds(q: int): nat
  {
    if q > 0 then q else 0
  }

  /** The Python slice `cols[start:]`: a negative start counts from the end, and the start is
      clamped to the table, so a start past the end gives no columns. The result is always a
      final run of the columns. */
  function SliceFrom<C>(cols: seq<C>, start: int): (r: seq<C>)
    ensures |r| <= |cols| && forall i :: 0 <= i < |r| ==> r[i] == cols[|cols| - |r| + i]
    ensures 0 <= start <= |cols| ==> |r| == |cols| - start
    ensures start > |cols| ==> r == []
    ensures start < 0 ==> |r| == if -start <= |cols| then -start else |cols|
  {
    var n := |cols|;
    var k := if start < 0 then (if start + n < 0 then 0 else start + n)
             else if start > n then n else start;
    cols[k..]
  }

  /** The last `r` columns, except that `-0` is `0`, so for `r == 0` it is the whole table. */
  function LastK<C>(cols: seq<C>, r: nat): seq<C>
    requires r <= |cols|
  {
    if r == 0 then cols else cols[|cols| - r..]
  }

  /** `cols[-r:]` is `LastK(cols, r)` for a remainder `r` of at most the table's width. */
  lemma SliceFromLast<C>(cols: seq<C>, r: nat)
    requires r <= |cols|
    ensures SliceFrom(cols, -(r as int)) == LastK(cols, r)
  {
  }

  /** Division facts on column counts, kept apart so that the lemmas about `Subtables` do not
      search for them among the sequence facts in their context. */
  lemma DivMod(c: nat, n: nat)
    requires n > 0
    ensures (c / n) * n + c % n == c && c % n < n && (c / n) * n <= c
  {
  }

  /** What `generate_subtables(table, no_cols)` returns: `divmod` fails on a zero width, and
      exactly then; otherwise `range(no_subtables)` full blocks, each `no_cols` wide, followed
      by the `-remainder:` slice. */
  function Subtables<C>(cols: seq<C>, noCols: int): (r: Result<seq<seq<C>>>)
    ensures r.Err? <==> noCols == 0
    ensures r.Err? ==> r.error == ZeroDivision
    ensures r.Ok? ==> |r.value| >= 1 && forall x :: 0 <= x < |r.value| - 1 ==> |r.value[x]| == noCols
  {
    if noCols == 0 then Err(ZeroDivision)
    else
      var (q, rem) := FloorDivMod(|cols|, noCols);
      FullBlocksWidths(cols, noCols, Rounds(q));
      Ok(FullBlocksUpTo(cols, noCols, q) + [SliceFrom(cols, -rem)])
  }

  /** There are `q` full blocks, each `n` columns wide. */
  lemma {:induction false} FullBlocksWidths<C>(cols: seq<C>, n: int, q: nat)
    requires q == 0 || (n >= 0 && q * n <= |cols|)
    ensures |FullBlocks(cols, n, q)| == q
    ensures forall x :: 0 <= x < q ==> |FullBlocks(cols, n, q)[x]| == n
  {
    if q > 0 {
      MulPred(q, n);
      FullBlocksWidths(cols, n, q - 1);
    }
  }

  /** The blocks appended by the loop `for x in range(q)`. */
  function FullBlocksUpTo<C>(cols: seq<C>, n: int, q: int): seq<seq<C>>
    requires q <= 0 || (n >= 0 && q * n <= |cols|)
  {
    FullBlocks(cols, n, Rounds(q))
  }

  /** The loop of `generate_subtables`, appending one block per iteration. */
  method GenerateSubtables<C>(table: seq<C>, noCols: int) returns (r: Result<seq<seq<C>>>)
    ensures r == Subtables(table, noCols)
  {
    if noCols == 0 {
      return Err(ZeroDivision);
    }
    var cols := |table|;
    var (noSubtables, remainder) := FloorDivMod(cols, noCols);
    FloorDivModBound(cols, noCols);
    var endTable := SliceFrom(table, -remainder);
    var subtables: seq<seq<C>> := [];
    var x := 0;
    while x < noSubtables
      invariant 0 <= x <= Rounds(noSubtables)
      invariant x == 0 || (noCols > 0 && x * noCols <= cols)
      invariant subtables == FullBlocks(table, noCols, x)
    {
      MulMono(x + 1, noSubtables, noCols);
      FullBlocksSnoc(table, noCols, x);
      subtables := subtables + [table[x * noCols .. noCols * (x + 1)]];
      x := x + 1;
    }
    subtables := subtables + [endTable];
    return Ok(subtables);
  }

  /** For a positive width: the `cols / no_cols` full blocks, then the last `cols % no_cols`
      columns, or the whole table when that remainder is 0. */
  lemma SubtablesPositive<C>(cols: seq<C>, noCols: int)
    requires noCols > 0
    ensures (|cols| / noCols) * noCols <= |cols| && |cols| % noCols <= |cols|
    ensures Subtables(cols, noCols) ==
              Ok(FullBlocks(cols, noCols, |cols| / noCols) + [LastK(cols, |cols| % noCols)])
  {
    DivMod(|cols|, noCols);
    FloorDivModPositive(|cols|, noCols);
    SliceFromLast(cols, |cols| % noCols);
  }

  /** One more iteration appends columns `[x*n, n*(x+1))`, as the loop slices them. */
  lemma FullBlocksSnoc<C>(cols: seq<C>, n: nat, x: nat)
    requires (x + 1) * n <= |cols|
    ensures x * n <= n * (x + 1) <= |cols|
    ensures FullBlocks(cols, n, x + 1) == FullBlocks(cols, n, x) + [cols[x * n .. n * (x + 1)]]
  {
    assert n * (x + 1) == (x + 1) * n == x * n + n;
  }

  lemma MulMono(a: nat, b: nat, n: nat)
    requires a <= b
    ensures a * n <= b * n
  {
  }

  /** Concatenation of blocks, in order. */
  function Flatten<C>(blocks: seq<seq<C>>): seq<C>
  {
    if blocks == [] then [] else Flatten(blocks[..|blocks| - 1]) + blocks[|blocks| - 1]
  }

  lemma MulPred(q: nat, n: int)
    requires q > 0
    ensures (q - 1) * n == q * n - n
  {
  }

  /** The x-th full block is columns `[x*n, (x+1)*n)`. */
  lemma {:induction false} FullBlocksAt<C>(cols: seq<C>, n: nat, q: nat, x: nat)
    requires q * n <= |cols| && x < q
    ensures (x + 1) * n <= |cols|
    ensures |FullBlocks(cols, n, q)| == q
    ensures FullBlocks(cols, n, q)[x] == cols[x * n .. (x + 1) * n]
  {
    MulPred(q, n);
    FullBlocksWidths(cols, n, q);
    FullBlocksWidths(cols, n, q - 1);
    if x < q - 1 {
      FullBlocksAt(cols, n, q - 1, x);
    } else {
      assert x + 1 == q;
    }
  }

  lemma SliceConcat<T>(s: seq<T>, i: nat, j: nat)
    requires i <= j <= |s|
    ensures s[..i] + s[i..j] == s[..j]
  {
  }

  /** Together the full blocks are exactly the first `q*n` columns, in order. */
  lemma {:induction false} FullBlocksFlatten<C>(cols: seq<C>, n: nat, q: nat)
    requires q * n <= |cols|
    ensures Flatten(FullBlocks(cols, n, q)) == cols[..q * n]
  {
    if q > 0 {
      MulPred(q, n);
      FullBlocksFlatten(cols, n, q - 1);
      var lo, hi := (q - 1) * n, q * n;
      var all := FullBlocks(cols, n, q);
      assert all == FullBlocks(cols, n, q - 1) + [cols[lo..hi]];
      assert all[..|all| - 1] == FullBlocks(cols, n, q - 1);
      SliceConcat(cols, lo, hi);
    }
  }

  /** Partition count: `cols / no_cols + 1` sub-tables. */
  lemma SubtablesCount<C>(cols: seq<C>, noCols: int)
    requires noCols > 0
    ensures Subtables(cols, noCols).Ok?
    ensures |Subtables(cols, noCols).value| == |cols| / noCols + 1
  {
    SubtablesPositive(cols, noCols);
    FullBlocksWidths(cols, noCols, |cols| / noCols);
  }

  /** The x-th of the first `cols / no_cols` sub-tables is columns `[x*no_cols, (x+1)*no_cols)`. */
  lemma SubtablesBlockAt<C>(cols: seq<C>, noCols: int, x: nat)
    requires noCols > 0 && x < |cols| / noCols
    ensures (x + 1) * noCols <= |cols|
    ensures Subtables(cols, noCols).Ok? && x < |Subtables(cols, noCols).value|
    ensures Subtables(cols, noCols).value[x] == cols[x * noCols .. (x + 1) * noCols]
  {
    SubtablesPositive(cols, noCols);
    var q, r := |cols| / noCols, |cols| % noCols;
    FullBlocksAt(cols, noCols, q, x);
    var s := Subtables(cols, noCols).value;
    assert s == FullBlocks(cols, noCols, q) + [LastK(cols, r)];
    assert s[x] == FullBlocks(cols, noCols, q)[x];
  }

  /** The remainder block: the last `r` columns when `r > 0`, and the whole table when the
      columns divide evenly. */
  lemma SubtablesLastBlock<C>(cols: seq<C>, noCols: int)
    requires noCols > 0
    ensures Subtables(cols, noCols).Ok?
    ensures var s, r := Subtables(cols, noCols).value, |cols| % noCols;
            |s| >= 1 &&
            (r > 0 ==> s[|s| - 1] == cols[|cols| - r..] && |s[|s| - 1]| == r) &&
            (r == 0 ==> s[|s| - 1] == cols)
  {
    SubtablesPositive(cols, noCols);
    FullBlocksWidths(cols, noCols, |cols| / noCols);
  }

  /** Coverage: with a positive remainder the sub-tables, in order, are exactly the columns;
      when the columns divide evenly every column appears twice, once in its full block and
      once in the duplicate full-width block. */
  lemma SubtablesCoverage<C>(cols: seq<C>, noCols: int)
    requires noCols > 0
    ensures Subtables(cols, noCols).Ok?
    ensures var s, r := Subtables(cols, noCols).value, |cols| % noCols;
            (r > 0 ==> Flatten(s) == cols) &&
            (r == 0 ==> Flatten(s) == cols + cols)
  {
    SubtablesPositive(cols, noCols);
    var q, r := |cols| / noCols, |cols| % noCols;
    FullBlocksWidths(cols, noCols, q);
    FullBlocksFlatten(cols, noCols, q);
    var s := Subtables(cols, noCols).value;
    var full := q * noCols;
    assert s == FullBlocks(cols, noCols, q) + [LastK(cols, r)];
    assert s[..|s| - 1] == FullBlocks(cols, noCols, q);
    assert Flatten(s) == cols[..full] + LastK(cols, r);
    if r > 0 {
      assert |cols| - r == full;
      assert cols[..full] + cols[full..] == cols;
    } else {
      assert full == |cols|;
      assert cols[..full] == cols;
    }
  }

  /** A negative width: `divmod` rounds the quotient down to at most 0, so the loop appends
      nothing, and the remainder slice starts `-remainder` columns in, Python's remainder being
      non-positive. The only sub-table is `cols[s:]` for that `s`, capped at the table's width. */
  lemma SubtablesNegative<C>(cols: seq<C>, noCols: int)
    requires noCols < 0
    ensures Subtables(cols, noCols).Ok?
    ensures var m := |cols| % -noCols;
            var s := if m == 0 then 0 else -noCols - m;
            Subtables(cols, noCols).value == [cols[if s <= |cols| then s else |cols|..]]
  {
    var (q, rem) := FloorDivMod(|cols|, noCols);
    assert |cols| % -noCols == |cols| % noCols;
  }

  /** Ten columns cut four wide give widths 4, 4, 2; eight columns give 4, 4 and then the
      whole table of 8 again; ten columns at width -4 (`divmod` gives -3 and -2) give the one
      sub-table of columns 2 to 9; width 0 is the `divmod` error. */
  lemma SubtablesScenarios<C>(ten: seq<C>, eight: seq<C>)
    requires |ten| == 10 && |eight| == 8
    ensures var s := Subtables(ten, 4).value;
            |s| == 3 && |s[0]| == 4 && |s[1]| == 4 && |s[2]| == 2
    ensures var s := Subtables(eight, 4).value;
            |s| == 3 && |s[0]| == 4 && |s[1]| == 4 && s[2] == eight
    ensures Subtables(ten, -4) == Ok([ten[2..]])
    ensures Subtables(ten, 0) == Err(ZeroDivision)
  {
    SubtablesNegative(ten, -4);
    SubtablesCount(ten, 4);
    SubtablesBlockAt(ten, 4, 0);
    SubtablesBlockAt(ten, 4, 1);
    SubtablesLastBlock(ten, 4);
    SubtablesCount(eight, 4);
    SubtablesBlockAt(eight, 4, 0);
    SubtablesBlockAt(eight, 4, 1);
    SubtablesLastBlock(eight, 4);
  }
}
