/** `wrap_table` and `insert_command`: the text decorators applied to every rendered block. */
module Decorator {
  import opened Results
  import opened Lines

  /** The top-rule marker line that anchors every insertion. */
  const TopRule: string := "\\toprule"

  function BeginLine(container: string): string
  {
    "\\begin{" + container + "}"
  }

  function EndLine(container: string): string
  {
    "\\end{" + container + "}"
  }

  /** One block of `wrap_table`: the opening directive on its own line, the block, then the
      closing directive and a newline. No newline is added between the block and `\end`, and
      the block can be read back out of the wrapped text. */
  function Wrap(block: string, container: string): (r: string)
    ensures Unwrap(r, container) == Some(block)
  {
    var open, close := BeginLine(container) + [NewLine], EndLine(container) + [NewLine];
    var w := BeginLine(container) + [NewLine] + block + EndLine(container) + [NewLine];
    assert w == open + block + close;
    assert w[..|open|] == open;
    assert w[|w| - |close|..] == close;
    assert w[|open|..|w| - |close|] == block;
    w
  }

  /** `wrap_table`: the same blocks, in the same order, each wrapped in `container`. */
  function WrapTable(latexTables: seq<string>, container: string): (r: seq<string>)
    ensures |r| == |latexTables|
    ensures forall i :: 0 <= i < |r| ==> r[i] == Wrap(latexTables[i], container)
  {
    seq(|latexTables|, i requires 0 <= i < |latexTables| => Wrap(latexTables[i], container))
  }

  /** Recovers a block from its wrapped form, if the text has the wrapper's shape. */
  function Unwrap(wrapped: string, container: string): Option<string>
  {
    var open, close := BeginLine(container) + [NewLine], EndLine(container) + [NewLine];
    if |open| + |close| <= |wrapped| && wrapped[..|open|] == open
       && wrapped[|wrapped| - |close|..] == close
    then Some(wrapped[|open|..|wrapped| - |close|])
    else None
  }

  /** `wrap_table` works block by block, so it distributes over concatenation of block lists. */
  lemma WrapTableAppend(a: seq<string>, b: seq<string>, container: string)
    ensures WrapTable(a + b, container) == WrapTable(a, container) + WrapTable(b, container)
  {
  }

  /** The index of the first line equal to `x`, as `[i for i ... if lines[i] == x][0]` finds it;
      None where that list is empty and indexing it raises. */
  function FirstIndex(lines: seq<string>, x: string): (r: Option<nat>)
    ensures r.None? <==> x !in lines
    ensures r.Some? ==> r.value < |lines| && lines[r.value] == x &&
                        forall j :: 0 <= j < r.value ==> lines[j] != x
  {
    FirstIndexFrom(lines, x, 0)
  }

  /** The scan behind `FirstIndex`, from position `i` on. */
  function FirstIndexFrom(lines: seq<string>, x: string, i: nat): (r: Option<nat>)
    requires i <= |lines|
    ensures r.None? <==> forall j :: i <= j < |lines| ==> lines[j] != x
    ensures r.Some? ==> i <= r.value < |lines| && lines[r.value] == x &&
                        forall j :: i <= j < r.value ==> lines[j] != x
    decreases |lines| - i
  {
    if i == |lines| then None
    else if lines[i] == x then Some(i)
    else FirstIndexFrom(lines, x, i + 1)
  }

  /** Where Python's `list.insert(i, x)` puts `x` in a list of length `n`: a negative index
      counts from the end, and the result is clamped to `[0, n]`. */
  function InsertIndex(n: nat, i: int): (k: nat)
    ensures k <= n
  {
    if i < 0 then (if i + n < 0 then 0 else i + n)
    else if i > n then n
    else i
  }

  /** A non-negative index past the end appends. */
  lemma InsertIndexClamp(n: nat, i: int)
    ensures i >= 0 ==> InsertIndex(n, i) == if i <= n then i else n
  {
  }

  /** `lines` with `x` put in at position `k`, the lines from `k` on moving down by one. */
  function Spliced(lines: seq<string>, k: nat, x: string): (r: seq<string>)
    requires k <= |lines|
    ensures |r| == |lines| + 1
  {
    seq(|lines| + 1, j requires 0 <= j <= |lines| =>
                       if j < k then lines[j] else if j == k then x else lines[j - 1])
  }

  /** `lines.insert(i, x)`, as a value: the list cut at the clamped index with `x` in between.
      One element more, `x` at the clamped index, and the old elements around it in order. */
  function ListInsert(lines: seq<string>, i: int, x: string): (r: seq<string>)
    ensures |r| == |lines| + 1
    ensures r[InsertIndex(|lines|, i)] == x
    ensures forall j :: 0 <= j < InsertIndex(|lines|, i) ==> r[j] == lines[j]
    ensures forall j :: InsertIndex(|lines|, i) < j < |r| ==> r[j] == lines[j - 1]
  {
    var k := InsertIndex(|lines|, i);
    var r := lines[..k] + [x] + lines[k..];
    assert forall j :: k < j < |r| ==> r[j] == lines[k..][j - k - 1];
    r
  }

  /** `list.insert` is the splice at the clamped index. */
  lemma ListInsertSpliced(lines: seq<string>, i: int, x: string)
    ensures ListInsert(lines, i, x) == Spliced(lines, InsertIndex(|lines|, i), x)
  {
    var k := InsertIndex(|lines|, i);
    var a, b := lines[..k] + [x] + lines[k..], Spliced(lines, k, x);
    forall j | 0 <= j < |a| ensures a[j] == b[j] {
      if j > k {
        assert a[j] == lines[k..][j - k - 1];
      }
    }
  }

  /** Removing the spliced-in line gives the old lines back, in order. */
  lemma SpliceRemove(lines: seq<string>, k: nat, x: string)
    requires k <= |lines|
    ensures Spliced(lines, k, x)[..k] + Spliced(lines, k, x)[k + 1..] == lines
  {
    var a := Spliced(lines, k, x);
    var b := a[..k] + a[k + 1..];
    forall j | 0 <= j < |lines| ensures b[j] == lines[j] {
      if j >= k {
        assert b[j] == a[k + 1..][j - k];
      }
    }
  }

  /** The loop body of `insert_command` for one block: split into lines, find the first top
      rule, insert `command` at that index plus `row`, and re-join. None, where `top_rule[0]`
      raises, exactly when no line is a top rule. */
  function InsertIntoBlock(block: string, command: string, row: int): (r: Option<string>)
    ensures r.None? <==> TopRule !in Split(block)
  {
    var lines := Split(block);
    match FirstIndex(lines, TopRule)
    case None => None
    case Some(top) => Some(Join(Spliced(lines, InsertIndex(|lines|, top + row), command)))
  }

  /** What `insert_command` returns: every block with the command inserted, or the error of the
      first block without a top-rule line. Only that error can occur, and a success keeps the
      number of blocks. */
  function InsertCommandSpec(latexTables: seq<string>, command: string, row: int): (r: Result<seq<string>>)
    ensures r.Err? ==> r.error == MissingTopRule
    ensures r.Ok? ==> |r.value| == |latexTables|
  {
    if forall i :: 0 <= i < |latexTables| ==> InsertIntoBlock(latexTables[i], command, row).Some?
    then Ok(seq(|latexTables|, i requires 0 <= i < |latexTables| =>
                                 InsertIntoBlock(latexTables[i], command, row).value))
    else Err(MissingTopRule)
  }

  /** `insert_command`: every block in turn gets the command, and the first block without a
      top-rule line ends the loop with the error. */
  method InsertCommand(latexTables: seq<string>, command: string, row: int)
    returns (r: Result<seq<string>>)
    ensures r == InsertCommandSpec(latexTables, command, row)
  {
    var latexTableNew: seq<string> := [];
    var b := 0;
    while b < |latexTables|
      invariant 0 <= b <= |latexTables|
      invariant |latexTableNew| == b
      invariant forall i :: 0 <= i < b ==> InsertIntoBlock(latexTables[i], command, row) == Some(latexTableNew[i])
    {
      var inserted := InsertIntoOneBlock(latexTables[b], command, row);
      if inserted.None? {
        InsertCommandSpecErr(latexTables, command, row, b);
        return Err(MissingTopRule);
      }
      latexTableNew := latexTableNew + [inserted.value];
      b := b + 1;
    }
    InsertCommandSpecOk(latexTables, command, row, latexTableNew);
    return Ok(latexTableNew);
  }

  /** The body of the loop in `insert_command`: split the block into lines, index the first
      top-rule line (None where that raises), `insert` the command and re-join. */
  method InsertIntoOneBlock(block: string, command: string, row: int) returns (r: Option<string>)
    ensures r == InsertIntoBlock(block, command, row)
  {
    var rowSplit := Split(block);
    var topRule := FirstIndex(rowSplit, TopRule);
    if topRule.None? {
      return None;
    }
    InsertIntoBlockIs(block, command, row, rowSplit, topRule.value);
    rowSplit := ListInsert(rowSplit, topRule.value + row, command);
    return Some(Join(rowSplit));
  }

  /** One block of `insert_command`, written with `list.insert` as the source writes it: the
      bridge from the splice in `InsertIntoBlock` to the cut form of `ListInsert`. */
  lemma InsertIntoBlockIs(block: string, command: string, row: int, lines: seq<string>, top: nat)
    requires lines == Split(block) && FirstIndex(lines, TopRule) == Some(top)
    ensures InsertIntoBlock(block, command, row) == Some(Join(ListInsert(lines, top + row, command)))
  {
    ListInsertSpliced(lines, top + row, command);
  }

  /** A block without a top-rule line makes `insert_command` fail. */
  lemma InsertCommandSpecErr(latexTables: seq<string>, command: string, row: int, b: nat)
    requires b < |latexTables| && InsertIntoBlock(latexTables[b], command, row).None?
    ensures InsertCommandSpec(latexTables, command, row) == Err(MissingTopRule)
  {
  }

  /** Blocks that all took the insertion are what `insert_command` returns. */
  lemma InsertCommandSpecOk(latexTables: seq<string>, command: string, row: int, done: seq<string>)
    requires |done| == |latexTables|
    requires forall i :: 0 <= i < |latexTables| ==> InsertIntoBlock(latexTables[i], command, row) == Some(done[i])
    ensures InsertCommandSpec(latexTables, command, row) == Ok(done)
  {
    assert done == seq(|latexTables|, i requires 0 <= i < |latexTables| =>
                         InsertIntoBlock(latexTables[i], command, row).value);
  }

  /** `insert_command` keeps the number and order of blocks, fails exactly when some block has
      no top-rule line, and otherwise inserts into every block independently. */
  lemma InsertCommandShape(latexTables: seq<string>, command: string, row: int)
    ensures InsertCommandSpec(latexTables, command, row).Err? <==>
              exists i :: 0 <= i < |latexTables| && TopRule !in Split(latexTables[i])
    ensures var r := InsertCommandSpec(latexTables, command, row);
            r.Err? ==> r.error == MissingTopRule
    ensures var r := InsertCommandSpec(latexTables, command, row);
            r.Ok? ==> |r.value| == |latexTables| &&
                      forall i :: 0 <= i < |latexTables| ==>
                        Some(r.value[i]) == InsertIntoBlock(latexTables[i], command, row)
  {
  }

  lemma SpliceNoNewLines(lines: seq<string>, k: nat, x: string)
    requires k <= |lines| && NoNewLines(lines) && NewLine !in x
    ensures NoNewLines(Spliced(lines, k, x))
  {
    var a := Spliced(lines, k, x);
    forall i | 0 <= i < |a| ensures NewLine !in a[i] {
      if i < k { assert a[i] == lines[i]; }
      else if i > k { assert a[i] == lines[i - 1]; }
    }
  }

  /** Unfolds `InsertIntoBlock` once, for a block that has a top-rule line. */
  lemma InsertIntoBlockValue(block: string, command: string, row: int)
    requires TopRule in Split(block)
    ensures InsertIntoBlock(block, command, row).Some?
    ensures var lines := Split(block);
            var k := InsertIndex(|lines|, FirstIndex(lines, TopRule).value + row);
            InsertIntoBlock(block, command, row).value == Join(Spliced(lines, k, command))
  {
  }

  /** For a newline-free command, the block's lines after insertion are the old lines with the
      command spliced in at `k = top + row`, clamped as `list.insert` clamps. */
  lemma InsertIntoBlockSplice(block: string, command: string, row: int)
    requires NewLine !in command && TopRule in Split(block)
    ensures InsertIntoBlock(block, command, row).Some?
    ensures var lines := Split(block);
            var k := InsertIndex(|lines|, FirstIndex(lines, TopRule).value + row);
            Split(InsertIntoBlock(block, command, row).value) == Spliced(lines, k, command)
  {
    var lines := Split(block);
    var k := InsertIndex(|lines|, FirstIndex(lines, TopRule).value + row);
    InsertIntoBlockValue(block, command, row);
    var text := SplicedText(lines, k, command);
    var value := InsertIntoBlock(block, command, row).value;
    assert value == text;
    assert Split(value) == Split(text);
  }

  /** The text of newline-free lines with a newline-free line spliced in splits back into
      exactly those lines. */
  lemma SplicedText(lines: seq<string>, k: nat, line: string) returns (text: string)
    requires k <= |lines| && NoNewLines(lines) && NewLine !in line
    ensures text == Join(Spliced(lines, k, line))
    ensures Split(text) == Spliced(lines, k, line)
  {
    var spliced := Spliced(lines, k, line);
    SpliceNoNewLines(lines, k, line);
    SplitJoin(spliced);
    text := Join(spliced);
  }

  /** The same, with the shape of the result spelled out: one line more, the command at `k`
      (which is `top + row`, or the end, when `row >= 0`), and removing line `k` gives the old
      lines back in order. */
  lemma InsertIntoBlockLines(block: string, command: string, row: int)
    requires NewLine !in command && TopRule in Split(block)
    ensures InsertIntoBlock(block, command, row).Some?
    ensures var lines := Split(block);
            Split(InsertIntoBlock(block, command, row).value) ==
              ListInsert(lines, FirstIndex(lines, TopRule).value + row, command)
    ensures |Split(InsertIntoBlock(block, command, row).value)| == |Split(block)| + 1
    ensures var lines := Split(block);
            var k := InsertIndex(|lines|, FirstIndex(lines, TopRule).value + row);
            Split(InsertIntoBlock(block, command, row).value)[k] == command
    ensures var lines := Split(block);
            var k := InsertIndex(|lines|, FirstIndex(lines, TopRule).value + row);
            var after := Split(InsertIntoBlock(block, command, row).value);
            after[..k] + after[k + 1..] == lines
    ensures var lines := Split(block);
            var top := FirstIndex(lines, TopRule).value;
            row >= 0 ==> InsertIndex(|lines|, top + row) == if top + row <= |lines| then top + row else |lines|
  {
    var lines := Split(block);
    var top := FirstIndex(lines, TopRule).value;
    var k := InsertIndex(|lines|, top + row);
    InsertIntoBlockSplice(block, command, row);
    ListInsertSpliced(lines, top + row, command);
    var after := Split(InsertIntoBlock(block, command, row).value);
    SpliceShape(lines, k, command, after);
    InsertIndexClamp(|lines|, top + row);
  }

  lemma SpliceShape(lines: seq<string>, k: nat, x: string, after: seq<string>)
    requires k <= |lines| && after == Spliced(lines, k, x)
    ensures |after| == |lines| + 1 && after[k] == x && after[..k] + after[k + 1..] == lines
  {
    SpliceRemove(lines, k, x);
  }

  /** The first occurrence is the one with no earlier occurrence. */
  lemma FirstIndexIs(lines: seq<string>, x: string, i: nat)
    requires i < |lines| && lines[i] == x
    requires forall j :: 0 <= j < i ==> lines[j] != x
    ensures FirstIndex(lines, x) == Some(i)
  {
    assert x in lines;
  }

  /** With `row == 0` the command lands immediately above the first top-rule line, which then
      moves down by one. */
  lemma InsertAboveTopRule(block: string, command: string)
    requires NewLine !in command && command != TopRule
    requires TopRule in Split(block)
    ensures InsertIntoBlock(block, command, 0).Some?
    ensures |Split(InsertIntoBlock(block, command, 0).value)| == |Split(block)| + 1
    ensures var top := FirstIndex(Split(block), TopRule).value;
            Split(InsertIntoBlock(block, command, 0).value)[top] == command
    ensures var top := FirstIndex(Split(block), TopRule).value;
            Split(InsertIntoBlock(block, command, 0).value)[top + 1] == TopRule
    ensures var top := FirstIndex(Split(block), TopRule).value;
            FirstIndex(Split(InsertIntoBlock(block, command, 0).value), TopRule) == Some(top + 1)
  {
    var lines := Split(block);
    var top := FirstIndex(lines, TopRule).value;
    InsertIntoBlockSplice(block, command, 0);
    InsertIndexClamp(|lines|, top);
    var after := Split(InsertIntoBlock(block, command, 0).value);
    assert after == Spliced(lines, top, command);
    SpliceAbove(lines, top, command, TopRule);
  }

  /** Splicing a line other than `x` in at the first `x` puts it directly above that `x`, which
      becomes the first one at the next position. */
  lemma SpliceAbove(lines: seq<string>, top: nat, line: string, x: string)
    requires line != x && FirstIndex(lines, x) == Some(top)
    ensures Spliced(lines, top, line)[top] == line
    ensures Spliced(lines, top, line)[top + 1] == x
    ensures FirstIndex(Spliced(lines, top, line), x) == Some(top + 1)
  {
    SpliceFirstIndex(lines, top, line, x);
  }

  /** Splicing in a line other than `x` moves the first `x` down by one exactly when the splice
      point is at or before it. */
  lemma SpliceFirstIndex(lines: seq<string>, k: nat, line: string, x: string)
    requires k <= |lines| && line != x && FirstIndex(lines, x).Some?
    ensures var top := FirstIndex(lines, x).value;
            FirstIndex(Spliced(lines, k, line), x) == Some(if k <= top then top + 1 else top)
  {
    var top := FirstIndex(lines, x).value;
    var after := Spliced(lines, k, line);
    var first := if k <= top then top + 1 else top;
    forall j | 0 <= j < first ensures after[j] != x {
      if j < k { assert after[j] == lines[j]; }
      else if j > k { assert after[j] == lines[j - 1]; }
    }
    assert after[first] == lines[top];
    FirstIndexIs(after, x, first);
  }

  /** A block is anchored when it has a top-rule line and the first one is not its last line,
      as in rendered tabular markup, which ends with a newline. */
  predicate Anchored(block: string)
  {
    AnchoredLines(Split(block))
  }

  /** The lines of an anchored block. */
  predicate AnchoredLines(lines: seq<string>)
  {
    FirstIndex(lines, TopRule).Some? && FirstIndex(lines, TopRule).value < |lines| - 1
  }
  /** The lines of a wrapped block: the opening line first, and the closing directive fused onto
      the block's last line, followed by an empty line. */
  lemma WrapLines(block: string, container: string)
    requires NewLine !in container
    ensures var lines := Split(block);
            Split(Wrap(block, container)) ==
              [BeginLine(container)] + lines[..|lines| - 1] +
              [lines[|lines| - 1] + EndLine(container), ""]
  {
    var open, close := BeginLine(container), EndLine(container);
    DirectivesOneLine(container);
    var lines, n := Split(block), |Split(block)|;
    var body := lines[..n - 1] + [lines[n - 1] + close] + [""];
    SplitThenClosing(block, close);
    assert Wrap(block, container) == open + [NewLine] + (block + (close + [NewLine]));
    SplitLineThenRest(open, block + (close + [NewLine]));
    assert [open] + body == [open] + lines[..n - 1] + [lines[n - 1] + close, ""];
  }

  lemma DirectivesOneLine(container: string)
    requires NewLine !in container
    ensures NewLine !in BeginLine(container) && NewLine !in EndLine(container)
  {
    assert NewLine !in "\\begin{" && NewLine !in "\\end{" && NewLine !in "}";
  }

  /** A block followed by a closing line and a newline: the closing line fuses onto the block's
      last line, and an empty piece follows. */
  lemma SplitThenClosing(block: string, close: string)
    requires NewLine !in close
    ensures var lines, n := Split(block), |Split(block)|;
            Split(block + (close + [NewLine])) == lines[..n - 1] + [lines[n - 1] + close] + [""]
  {
    var closing := close + [NewLine];
    assert Split(closing) == [close, ""] by {
      SplitLineThenRest(close, "");
      assert close + [NewLine] + "" == closing;
    }
    SplitAppend(block, closing);
  }

  /** Wrapping keeps a block anchored and moves its first top-rule line down by one. */
  lemma WrapAnchored(block: string, container: string)
    requires NewLine !in container && Anchored(block)
    ensures Anchored(Wrap(block, container))
    ensures FirstIndex(Split(Wrap(block, container)), TopRule).value ==
            FirstIndex(Split(block), TopRule).value + 1
  {
    WrapLines(block, container);
    BeginIsNotTopRule(container);
    WrappedAnchored(Split(block), BeginLine(container), EndLine(container));
  }

  /** The wrapped form of anchored lines is anchored, its first top rule one line further down. */
  lemma WrappedAnchored(lines: seq<string>, open: string, close: string)
    requires open != TopRule && AnchoredLines(lines)
    ensures AnchoredLines([open] + lines[..|lines| - 1] + [lines[|lines| - 1] + close, ""])
    ensures FirstIndex([open] + lines[..|lines| - 1] + [lines[|lines| - 1] + close, ""], TopRule).value ==
            FirstIndex(lines, TopRule).value + 1
  {
    var n := |lines|;
    WrappedFirst(lines, open, lines[n - 1] + close, "", FirstIndex(lines, TopRule).value, TopRule);
  }

  lemma BeginIsNotTopRule(container: string)
    ensures BeginLine(container) != TopRule
  {
    assert BeginLine(container)[1] == 'b' && TopRule[1] == 't';
  }

  /** A first `x` at `top`, before the last line, moves to `top + 1` once an opening line other
      than `x` goes in front and the last line is replaced and followed by one more. */
  lemma WrappedFirst(lines: seq<string>, open: string, last: string, blank: string, top: nat, x: string)
    requires open != x && FirstIndex(lines, x) == Some(top) && top < |lines| - 1
    ensures FirstIndex([open] + lines[..|lines| - 1] + [last, blank], x) == Some(top + 1)
    ensures top + 1 < |[open] + lines[..|lines| - 1] + [last, blank]| - 1
  {
    var n := |lines|;
    var w := [open] + lines[..n - 1] + [last, blank];
    forall j | 0 <= j < top + 1 ensures w[j] != x {
      if j > 0 {
        assert w[j] == lines[j - 1];
      }
    }
    assert w[top + 1] == lines[top];
    FirstIndexIs(w, x, top + 1);
  }

  /** Wrapping cannot create a top-rule line. */
  lemma WrapNoTopRule(block: string, container: string)
    requires NewLine !in container && TopRule !in Split(block)
    ensures TopRule !in Split(Wrap(block, container))
  {
    WrapLines(block, container);
    var lines := Split(block);
    var w := Split(Wrap(block, container));
    assert BeginLine(container)[1] == 'b' && TopRule[1] == 't';
    var fused := lines[|lines| - 1] + EndLine(container);
    assert fused[|fused| - 1] == '}' && TopRule[|TopRule| - 1] == 'e';
    forall j | 0 <= j < |w| ensures w[j] != TopRule {
      if 1 <= j < |lines| {
        assert w[j] == lines[j - 1];
      }
    }
  }

  /** Inserting a newline-free command other than the marker into an anchored block keeps it
      anchored; the first top-rule line moves down by one exactly when the command went in at or
      above it. */
  lemma InsertAnchored(block: string, command: string, row: int)
    requires NewLine !in command && command != TopRule && Anchored(block)
    ensures InsertIntoBlock(block, command, row).Some?
    ensures Anchored(InsertIntoBlock(block, command, row).value)
    ensures var lines := Split(block);
            var top := FirstIndex(lines, TopRule).value;
            var k := InsertIndex(|lines|, top + row);
            FirstIndex(Split(InsertIntoBlock(block, command, row).value), TopRule).value ==
              if k <= top then top + 1 else top
  {
    var lines := Split(block);
    var top := FirstIndex(lines, TopRule).value;
    var k := InsertIndex(|lines|, top + row);
    InsertIntoBlockSplice(block, command, row);
    var after := Split(InsertIntoBlock(block, command, row).value);
    assert after == Spliced(lines, k, command);
    SpliceKeepsAnchor(lines, k, command);
  }

  /** Splicing a line other than the marker into anchored lines keeps them anchored. */
  lemma SpliceKeepsAnchor(lines: seq<string>, k: nat, line: string)
    requires k <= |lines| && line != TopRule && AnchoredLines(lines)
    ensures AnchoredLines(Spliced(lines, k, line))
    ensures var top := FirstIndex(lines, TopRule).value;
            FirstIndex(Spliced(lines, k, line), TopRule).value == if k <= top then top + 1 else top
  {
    SpliceFirstIndex(lines, k, line, TopRule);
  }

  lemma PrefixOfConcat<T>(p: seq<T>, s: seq<T>)
    ensures p <= p + s
  {
  }

  lemma PrefixRest<T>(p: seq<T>, s: seq<T>)
    requires p <= s
    ensures s == p + s[|p|..]
  {
  }

  /** A splice below a header is a splice into what follows the header. */
  lemma SpliceAfterHeader(header: seq<string>, tail: seq<string>, k: nat, line: string)
    requires |header| <= k <= |header| + |tail|
    ensures Spliced(header + tail, k, line) == header + Spliced(tail, k - |header|, line)
  {
    var a, b := Spliced(header + tail, k, line), header + Spliced(tail, k - |header|, line);
    forall j | 0 <= j < |a| ensures a[j] == b[j] {
      if j >= |header| {
        assert b[j] == Spliced(tail, k - |header|, line)[j - |header|];
      }
    }
  }

  lemma JoinSpliceAfterHeader(header: seq<string>, tail: seq<string>, k: nat, line: string)
    requires |header| >= 1 && |header| <= k <= |header| + |tail|
    ensures Join(Spliced(header + tail, k, line)) ==
              Join(header) + [NewLine] + Join(Spliced(tail, k - |header|, line))
  {
    SpliceAfterHeader(header, tail, k, line);
    JoinAppend(header, Spliced(tail, k - |header|, line));
  }

  lemma FirstIndexAfterHeader(header: seq<string>, tail: seq<string>, x: string)
    requires x !in header && FirstIndex(header + tail, x).Some?
    ensures FirstIndex(header + tail, x).value >= |header|
  {
  }

  /** An insertion at a non-negative offset never lands inside a header of complete lines that
      holds no top rule, so a block that starts with that header still does afterwards. */
  lemma InsertKeepsHeader(header: seq<string>, block: string, command: string, row: int)
    requires |header| >= 1 && NoNewLines(header) && TopRule !in header
    requires Join(header) + [NewLine] <= block
    requires row >= 0 && InsertIntoBlock(block, command, row).Some?
    ensures Join(header) + [NewLine] <= InsertIntoBlock(block, command, row).value
  {
    var prefix := Join(header) + [NewLine];
    var rest := block[|prefix|..];
    assert TopRule in Split(block);
    PrefixRest(prefix, block);
    SplitJoinThenRest(header, rest);
    InsertBelowHeader(header, Split(rest), block, command, row);
  }

  /** The same, for a block whose lines are the header's followed by `tail`. */
  lemma InsertBelowHeader(header: seq<string>, tail: seq<string>, block: string, command: string, row: int)
    requires |header| >= 1 && TopRule !in header && row >= 0
    requires Split(block) == header + tail && TopRule in Split(block)
    ensures InsertIntoBlock(block, command, row).Some?
    ensures Join(header) + [NewLine] <= InsertIntoBlock(block, command, row).value
  {
    var lines := Split(block);
    FirstIndexAfterHeader(header, tail, TopRule);
    var top := FirstIndex(lines, TopRule).value;
    var h := |header|;
    InsertIndexClamp(|lines|, top + row);
    var k := InsertIndex(|lines|, top + row);
    assert h <= k <= |lines|;
    JoinSpliceAfterHeader(header, tail, k, command);
    InsertIntoBlockValue(block, command, row);
    PrefixOfConcat(Join(header) + [NewLine], Join(Spliced(tail, k - h, command)));
  }
}
