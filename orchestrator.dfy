/** `latex_subtables` and `wide_table`: the pipeline from a wide table to one document.
    `DataFrame.to_latex` belongs to the tabular library, so the renderer is a parameter. */
module Orchestrator {
  import opened Results
  import opened Lines
  import opened Partitioner
  import opened Decorator
  import opened Assembler

  const Centering: string := "\\centering"
  const MidRule: string := "\\midrule"

  /** `latex_subtables`: every sub-table rendered, in order. */
  function LatexSubtables<C>(subtables: seq<seq<C>>, render: seq<C> -> string): (r: seq<string>)
    ensures |r| == |subtables|
    ensures forall i :: 0 <= i < |r| ==> r[i] == render(subtables[i])
  {
    seq(|subtables|, i requires 0 <= i < |subtables| => render(subtables[i]))
  }

  /** The centre pass: wrap every block in a `table` container, then put `\centering` right
      above its first top rule. It fails only by a missing top rule, and keeps the number of
      blocks. */
  function CenterPass(latexTables: seq<string>): (r: Result<seq<string>>)
    ensures r.Err? ==> r.error == MissingTopRule
    ensures r.Ok? ==> |r.value| == |latexTables|
  {
    InsertCommandSpec(WrapTable(latexTables, "table"), Centering, 0)
  }

  /** The mid-rule loop from the `count`-th entry on: the entry `mr` at position `count` goes in
      at offset `mr + count`, the top rule being searched again on every call. */
  function MidrulePass(latexTables: seq<string>, midrules: seq<int>, count: nat): (r: Result<seq<string>>)
    ensures r.Err? ==> r.error == MissingTopRule
    ensures r.Ok? ==> |r.value| == |latexTables|
    decreases |midrules|
  {
    if |midrules| == 0 then Ok(latexTables)
    else
      var next :- InsertCommandSpec(latexTables, MidRule, midrules[0] + count);
      MidrulePass(next, midrules[1..], count + 1)
  }

  /** `midrules=None` is the empty list: no mid-rule is drawn exactly when the argument is
      `None` or empty, and a given list is used as it stands. */
  function MidruleList(midrules: Option<seq<int>>): (r: seq<int>)
    ensures |r| == 0 <==> midrules.None? || |midrules.value| == 0
    ensures midrules.Some? ==> r == midrules.value
  {
    if midrules.None? then [] else midrules.value
  }

  /** The decorator stage of `wide_table`: centre pass, then landscape wrap, then mid-rules.
      It fails only by a missing top rule, and keeps the number of blocks. */
  function Decorate(latexTables: seq<string>, landscape: bool, center: bool, midrules: seq<int>)
    : (r: Result<seq<string>>)
    ensures r.Err? ==> r.error == MissingTopRule
    ensures r.Ok? ==> |r.value| == |latexTables|
  {
    var centered :- if center then CenterPass(latexTables) else Ok(latexTables);
    var turned := if landscape then WrapTable(centered, "landscape") else centered;
    MidrulePass(turned, midrules, 0)
  }

  /** What `wide_table` returns: the division by zero exactly at width 0, otherwise the
      missing-top-rule error or a document at least as long as one page break. */
  function WideTableSpec<C>(table: seq<C>, noCols: int, landscape: bool, center: bool,
                            midrules: Option<seq<int>>, render: seq<C> -> string): (r: Result<string>)
    ensures r.Err? ==> r.error == ZeroDivision || r.error == MissingTopRule
    ensures r == Err(ZeroDivision) <==> noCols == 0
    ensures r.Ok? ==> |r.value| >= |NewPage|
  {
    var subtables :- Subtables(table, noCols);
    var decorated :- Decorate(LatexSubtables(subtables, render), landscape, center, MidruleList(midrules));
    Ok(CombineSubtables(decorated))
  }

  /** A successful `wide_table` document begins with a page break. */
  lemma WideTableStartsWithPage<C>(table: seq<C>, noCols: int, landscape: bool, center: bool,
                                   midrules: Option<seq<int>>, render: seq<C> -> string)
    requires WideTableSpec(table, noCols, landscape, center, midrules, render).Ok?
    ensures NewPage <= WideTableSpec(table, noCols, landscape, center, midrules, render).value
  {
    var blocks := LatexSubtables(Subtables(table, noCols).value, render);
    CombineStart(Decorate(blocks, landscape, center, MidruleList(midrules)).value, "");
  }

  /** `wide_table`, step by step as the source reassigns `latex_tables`. */
  method WideTable<C>(table: seq<C>, noCols: int, landscape: bool, center: bool,
                      midrules: Option<seq<int>>, render: seq<C> -> string)
    returns (r: Result<string>)
    ensures r == WideTableSpec(table, noCols, landscape, center, midrules, render)
  {
    var subtables :- GenerateSubtables(table, noCols);
    var latexTables := LatexSubtables(subtables, render);
    if center {
      latexTables := WrapTable(latexTables, "table");
      latexTables :- InsertCommand(latexTables, Centering, 0);
    }
    if landscape {
      latexTables := WrapTable(latexTables, "landscape");
    }
    var rules := MidruleList(midrules);
    latexTables :- MidruleLoop(latexTables, rules);
    var combined := CombineSubtables(latexTables);
    return Ok(combined);
  }

  /** The loop `for count, mr in enumerate(midrules)` of `wide_table`: the `count`-th offset goes
      in at `mr + count`, the top rule being searched again on every call. */
  method MidruleLoop(latexTables: seq<string>, rules: seq<int>) returns (r: Result<seq<string>>)
    ensures r == MidrulePass(latexTables, rules, 0)
  {
    var current := latexTables;
    var count := 0;
    while count < |rules|
      invariant 0 <= count <= |rules|
      invariant MidrulePass(latexTables, rules, 0) == MidrulePass(current, rules[count..], count)
    {
      assert rules[count..][1..] == rules[count + 1..];
      current :- InsertCommand(current, MidRule, rules[count] + count);
      count := count + 1;
    }
    return Ok(current);
  }

  /** With no centring, no landscape and no mid-rules the document is the page-break
      combination of the rendered sub-tables; a zero width is the `divmod` error. */
  lemma WideTablePlain<C>(table: seq<C>, noCols: int, midrules: Option<seq<int>>,
                          render: seq<C> -> string)
    requires MidruleList(midrules) == []
    ensures noCols == 0 ==> WideTableSpec(table, noCols, false, false, midrules, render) == Err(ZeroDivision)
    ensures noCols != 0 ==>
              WideTableSpec(table, noCols, false, false, midrules, render) ==
              Ok(CombineSubtables(LatexSubtables(Subtables(table, noCols).value, render)))
  {
  }

  predicate AllAnchored(latexTables: seq<string>)
  {
    forall i :: 0 <= i < |latexTables| ==> Anchored(latexTables[i])
  }

  lemma WrapTableAnchored(latexTables: seq<string>, container: string)
    requires NewLine !in container && AllAnchored(latexTables)
    ensures AllAnchored(WrapTable(latexTables, container))
  {
    forall i | 0 <= i < |latexTables| ensures Anchored(WrapTable(latexTables, container)[i]) {
      WrapAnchored(latexTables[i], container);
    }
  }

  /** Inserting a newline-free command other than the marker into anchored blocks succeeds and
      keeps them anchored. */
  lemma InsertCommandAnchored(latexTables: seq<string>, command: string, row: int)
    requires NewLine !in command && command != TopRule && AllAnchored(latexTables)
    ensures InsertCommandSpec(latexTables, command, row).Ok?
    ensures AllAnchored(InsertCommandSpec(latexTables, command, row).value)
  {
    forall i | 0 <= i < |latexTables|
      ensures InsertIntoBlock(latexTables[i], command, row).Some?
      ensures Anchored(InsertIntoBlock(latexTables[i], command, row).value)
    {
      InsertAnchored(latexTables[i], command, row);
    }
  }

  lemma {:induction false} MidrulePassAnchored(latexTables: seq<string>, midrules: seq<int>, count: nat)
    requires AllAnchored(latexTables)
    ensures MidrulePass(latexTables, midrules, count).Ok?
    ensures AllAnchored(MidrulePass(latexTables, midrules, count).value)
    decreases |midrules|
  {
    if |midrules| > 0 {
      assert NewLine !in MidRule && MidRule != TopRule;
      var next := AnchoredStep(latexTables, MidRule, midrules[0] + count);
      MidrulePassStep(latexTables, midrules, count, next);
      MidrulePassAnchored(next, midrules[1..], count + 1);
    }
  }

  /** Inserting into anchored blocks hands on anchored blocks. */
  lemma AnchoredStep(latexTables: seq<string>, command: string, row: int) returns (next: seq<string>)
    requires NewLine !in command && command != TopRule && AllAnchored(latexTables)
    ensures InsertCommandSpec(latexTables, command, row) == Ok(next)
    ensures AllAnchored(next)
  {
    InsertCommandAnchored(latexTables, command, row);
    next := InsertCommandSpec(latexTables, command, row).value;
  }

  /** One iteration of the mid-rule loop, when its insertion succeeds. */
  lemma MidrulePassStep(latexTables: seq<string>, midrules: seq<int>, count: nat, next: seq<string>)
    requires |midrules| > 0 && InsertCommandSpec(latexTables, MidRule, midrules[0] + count) == Ok(next)
    ensures MidrulePass(latexTables, midrules, count) == MidrulePass(next, midrules[1..], count + 1)
  {
  }

  /** Decorating anchored blocks always succeeds, whatever the options. */
  lemma DecorateSucceeds(latexTables: seq<string>, landscape: bool, center: bool, midrules: seq<int>)
    requires AllAnchored(latexTables)
    ensures Decorate(latexTables, landscape, center, midrules).Ok?
    ensures |Decorate(latexTables, landscape, center, midrules).value| == |latexTables|
  {
    var centered := latexTables;
    if center {
      assert NewLine !in "table" && NewLine !in Centering && Centering != TopRule;
      WrapTableAnchored(latexTables, "table");
      InsertCommandAnchored(WrapTable(latexTables, "table"), Centering, 0);
      centered := CenterPass(latexTables).value;
    }
    var turned := if landscape then WrapTable(centered, "landscape") else centered;
    if landscape {
      assert NewLine !in "landscape";
      WrapTableAnchored(centered, "landscape");
    }
    MidrulePassAnchored(turned, midrules, 0);
  }

  /** When every rendered sub-table is anchored (has a top-rule line that is not its last line,
      as `to_latex` output has), `wide_table` succeeds for every non-zero width and every
      choice of options. */
  lemma WideTableSucceeds<C>(table: seq<C>, noCols: int, landscape: bool, center: bool,
                             midrules: Option<seq<int>>, render: seq<C> -> string)
    requires noCols != 0
    requires forall i :: 0 <= i < |Subtables(table, noCols).value| ==>
               Anchored(render(Subtables(table, noCols).value[i]))
    ensures WideTableSpec(table, noCols, landscape, center, midrules, render).Ok?
  {
    var blocks := LatexSubtables(Subtables(table, noCols).value, render);
    DecorateSucceeds(blocks, landscape, center, MidruleList(midrules));
  }

  /** A rendered sub-table without any top-rule line makes `wide_table` fail with the
      `IndexError` as soon as a command is to be inserted: with centring, or with any mid-rule. */
  lemma WideTableMissingTopRule<C>(table: seq<C>, noCols: int, landscape: bool, center: bool,
                                   midrules: Option<seq<int>>, render: seq<C> -> string, i: nat)
    requires noCols != 0
    requires i < |Subtables(table, noCols).value|
    requires TopRule !in Split(render(Subtables(table, noCols).value[i]))
    requires center || MidruleList(midrules) != []
    ensures WideTableSpec(table, noCols, landscape, center, midrules, render) == Err(MissingTopRule)
  {
    var blocks := LatexSubtables(Subtables(table, noCols).value, render);
    var rules := MidruleList(midrules);
    assert blocks[i] == render(Subtables(table, noCols).value[i]);
    InsertCommandShape(blocks, MidRule, if rules == [] then 0 else rules[0]);
    if center {
      var wrapped := WrapTable(blocks, "table");
      assert NewLine !in "table";
      WrapNoTopRule(blocks[i], "table");
      InsertCommandShape(wrapped, Centering, 0);
      assert CenterPass(blocks).Err?;
    } else if landscape {
      var wrapped := WrapTable(blocks, "landscape");
      assert NewLine !in "landscape";
      WrapNoTopRule(blocks[i], "landscape");
      InsertCommandShape(wrapped, MidRule, rules[0]);
    }
  }

  /** The opening lines of a block that went through the centre pass and then the landscape
      wrap: the landscape container outside, the table container inside. */
  const NestedHeader: string := "\\begin{landscape}\n\\begin{table}\n"

  lemma {:induction false} MidrulePassKeepsHeader(latexTables: seq<string>, midrules: seq<int>,
                                                  count: nat, header: seq<string>)
    requires |header| >= 1 && NoNewLines(header) && TopRule !in header
    requires forall i :: 0 <= i < |latexTables| ==> Join(header) + [NewLine] <= latexTables[i]
    requires forall k :: 0 <= k < |midrules| ==> midrules[k] >= 0
    requires MidrulePass(latexTables, midrules, count).Ok?
    ensures var r := MidrulePass(latexTables, midrules, count).value;
            forall i :: 0 <= i < |r| ==> Join(header) + [NewLine] <= r[i]
    decreases |midrules|
  {
    if |midrules| > 0 {
      var row := midrules[0] + count;
      var next := InsertCommandSpec(latexTables, MidRule, row).value;
      InsertCommandShape(latexTables, MidRule, row);
      forall i | 0 <= i < |next| ensures Join(header) + [NewLine] <= next[i] {
        InsertKeepsHeader(header, latexTables[i], MidRule, row);
      }
      MidrulePassKeepsHeader(next, midrules[1..], count + 1, header);
    }
  }

  /** Wrapping puts the opening line in front of whatever the block started with. */
  lemma WrapPrefix(p: string, block: string, container: string)
    requires p <= block
    ensures BeginLine(container) + [NewLine] + p <= Wrap(block, container)
  {
    var rest := block[|p|..];
    PrefixRest(p, block);
    var open := BeginLine(container) + [NewLine];
    assert Wrap(block, container) == open + p + (rest + EndLine(container) + [NewLine]);
    PrefixOfConcat(open + p, rest + EndLine(container) + [NewLine]);
  }

  lemma HeaderLinesClean()
    ensures NoNewLines([BeginLine("table")]) && TopRule !in [BeginLine("table")]
    ensures NoNewLines([BeginLine("landscape"), BeginLine("table")])
    ensures TopRule !in [BeginLine("landscape"), BeginLine("table")]
  {
    assert BeginLine("table") == "\\begin{table}";
    assert BeginLine("landscape") == "\\begin{landscape}";
  }

  lemma HeaderJoins()
    ensures Join([BeginLine("table")]) + [NewLine] == BeginLine("table") + [NewLine]
    ensures Join([BeginLine("landscape"), BeginLine("table")]) + [NewLine] == NestedHeader
    ensures BeginLine("landscape") + [NewLine] + (BeginLine("table") + [NewLine]) == NestedHeader
  {
    var land, table := BeginLine("landscape"), BeginLine("table");
    JoinTwo(land, table);
    assert land + [NewLine] + (table + [NewLine]) == NestedHeader;
  }

  lemma JoinTwo(a: string, b: string)
    ensures Join([a, b]) + [NewLine] == a + [NewLine] + (b + [NewLine])
  {
    assert [a] + [b] == [a, b];
    JoinSnoc([a], b);
  }

  /** After the centre pass every block opens with the table container's line. */
  lemma CenterPassHeader(latexTables: seq<string>)
    requires CenterPass(latexTables).Ok?
    ensures var r := CenterPass(latexTables).value;
            forall i :: 0 <= i < |r| ==> BeginLine("table") + [NewLine] <= r[i]
  {
    HeaderLinesClean();
    HeaderJoins();
    var head := BeginLine("table") + [NewLine];
    var wrapped := WrapTable(latexTables, "table");
    InsertCommandShape(wrapped, Centering, 0);
    var r := CenterPass(latexTables).value;
    forall i | 0 <= i < |r| ensures head <= r[i] {
      WrapPrefix([], latexTables[i], "table");
      InsertKeepsHeader([BeginLine("table")], wrapped[i], Centering, 0);
    }
  }

  /** On anchored blocks the centre pass succeeds, and in every block `\centering` is the line
      directly above the first top rule, the block staying anchored. */
  lemma CenterPassPlacesCentering(latexTables: seq<string>)
    requires AllAnchored(latexTables)
    ensures CenterPass(latexTables).Ok?
    ensures var r := CenterPass(latexTables).value;
            AllAnchored(r) &&
            forall i :: 0 <= i < |r| ==>
              var t := FirstIndex(Split(r[i]), TopRule).value;
              t >= 1 && Split(r[i])[t - 1] == Centering
  {
    assert NewLine !in "table" && NewLine !in Centering && Centering != TopRule;
    var wrapped := WrapTable(latexTables, "table");
    WrapTableAnchored(latexTables, "table");
    InsertCommandAnchored(wrapped, Centering, 0);
    InsertCommandShape(wrapped, Centering, 0);
    var r := CenterPass(latexTables).value;
    forall i | 0 <= i < |r|
      ensures var t := FirstIndex(Split(r[i]), TopRule).value;
              t >= 1 && Split(r[i])[t - 1] == Centering
    {
      CenteredBlock(wrapped[i], r[i]);
    }
  }

  /** One block of the centre pass: the command lands right above the first top rule. */
  lemma CenteredBlock(block: string, centered: string)
    requires Anchored(block) && InsertIntoBlock(block, Centering, 0) == Some(centered)
    ensures FirstIndex(Split(centered), TopRule).Some?
    ensures var t := FirstIndex(Split(centered), TopRule).value;
            t >= 1 && Split(centered)[t - 1] == Centering
  {
    assert NewLine !in Centering && Centering != TopRule;
    InsertAboveTopRule(block, Centering);
  }

  /** With both passes on and non-negative mid-rule offsets, every decorated block opens with
      the landscape container and then the table container, each on its own line. */
  lemma DecorateNesting(latexTables: seq<string>, midrules: seq<int>)
    requires forall k :: 0 <= k < |midrules| ==> midrules[k] >= 0
    requires Decorate(latexTables, true, true, midrules).Ok?
    ensures var r := Decorate(latexTables, true, true, midrules).value;
            forall i :: 0 <= i < |r| ==> NestedHeader <= r[i]
  {
    HeaderLinesClean();
    HeaderJoins();
    CenterPassHeader(latexTables);
    var centered := CenterPass(latexTables).value;
    var turned := WrapTable(centered, "landscape");
    forall i | 0 <= i < |turned| ensures NestedHeader <= turned[i] {
      WrapPrefix(BeginLine("table") + [NewLine], centered[i], "landscape");
    }
    MidrulePassKeepsHeader(turned, midrules, 0, [BeginLine("landscape"), BeginLine("table")]);
  }

  /** Container nesting in the document: with both passes on (and non-negative mid-rule
      offsets), a successful `wide_table` starts with a page break, then the landscape opening
      line, then the table opening line. */
  lemma WideTableNesting<C>(table: seq<C>, noCols: int, midrules: Option<seq<int>>,
                            render: seq<C> -> string)
    requires forall k :: 0 <= k < |MidruleList(midrules)| ==> MidruleList(midrules)[k] >= 0
    requires WideTableSpec(table, noCols, true, true, midrules, render).Ok?
    ensures NewPage + NestedHeader <= WideTableSpec(table, noCols, true, true, midrules, render).value
  {
    var blocks := LatexSubtables(Subtables(table, noCols).value, render);
    var decorated := Decorate(blocks, true, true, MidruleList(midrules)).value;
    DecorateNesting(blocks, MidruleList(midrules));
    CombineStart(decorated, NestedHeader);
  }

  /** `lines` with a mid-rule line put in before original row `a` and another before original
      row `b`. */
  function WithTwoRules(lines: seq<string>, a: nat, b: nat): (r: seq<string>)
    requires a <= b <= |lines|
    ensures |r| == |lines| + 2
  {
    seq(|lines| + 2, j requires 0 <= j < |lines| + 2 =>
                       if j < a then lines[j]
                       else if j == a then MidRule
                       else if j <= b then lines[j - 1]
                       else if j == b + 1 then MidRule
                       else lines[j - 2])
  }

  /** The same lines cut at the two rows, with a mid-rule line in each cut. */
  lemma WithTwoRulesCuts(lines: seq<string>, a: nat, b: nat)
    requires a <= b <= |lines|
    ensures WithTwoRules(lines, a, b) == lines[..a] + [MidRule] + lines[a..b] + [MidRule] + lines[b..]
  {
    var w, c := WithTwoRules(lines, a, b), lines[..a] + [MidRule] + lines[a..b] + [MidRule] + lines[b..];
    forall j | 0 <= j < |w| ensures w[j] == c[j] {
      if a < j <= b {
        assert c[j] == lines[a..b][j - a - 1];
      } else if j > b + 1 {
        assert c[j] == lines[b..][j - b - 2];
      }
    }
  }

  /** Two splices of `x`, the second one line further down to account for the first. */
  lemma DoubleSplice(lines: seq<string>, a: nat, b: nat)
    requires a <= b <= |lines|
    ensures Spliced(Spliced(lines, a, MidRule), b + 1, MidRule) == WithTwoRules(lines, a, b)
  {
  }

  /** One step of the mid-rule loop on a single block whose first top rule is at `top`: the
      block `b` it produces, whose lines are the old ones with the rule spliced in at `k`. */
  lemma MidruleStep(block: string, row: int, lines: seq<string>, top: nat, k: nat) returns (b: string)
    requires lines == Split(block) && FirstIndex(lines, TopRule) == Some(top)
    requires k == InsertIndex(|lines|, top + row)
    ensures InsertCommandSpec([block], MidRule, row) == Ok([b])
    ensures b == Join(Spliced(lines, k, MidRule))
    ensures Split(b) == Spliced(lines, k, MidRule)
  {
    assert NewLine !in MidRule;
    InsertIntoBlockSplice(block, MidRule, row);
    InsertIntoBlockValue(block, MidRule, row);
    b := InsertIntoBlock(block, MidRule, row).value;
    assert InsertCommandSpec([block], MidRule, row).value == [b];
  }

  /** The mid-rule loop over two offsets is two single-block insertions, the second at `+ 1`. */
  lemma TwoSteps(block: string, first: int, second: int, b1: string, b2: string)
    requires InsertCommandSpec([block], MidRule, first) == Ok([b1])
    requires InsertCommandSpec([b1], MidRule, second + 1) == Ok([b2])
    ensures MidrulePass([block], [first, second], 0) == Ok([b2])
  {
    assert [first, second][1..] == [second];
    assert MidrulePass([block], [first, second], 0) == MidrulePass([b1], [second], 1);
    assert [second][1..] == [];
    assert MidrulePass([b1], [second], 1) == MidrulePass([b2], [], 2);
  }

  /** Two passes of the mid-rule loop on one block: the first rule spliced in at `k0`, which
      leaves the first top rule at `top1`, and the second at `k1` of the once-spliced lines. */
  lemma MidrulePassTwice(block: string, first: int, second: int, lines: seq<string>, top: nat,
                         k0: nat, top1: nat, k1: nat) returns (b2: string)
    requires lines == Split(block) && FirstIndex(lines, TopRule) == Some(top)
    requires k0 == InsertIndex(|lines|, top + first)
    requires top1 == if k0 <= top then top + 1 else top
    requires k1 == InsertIndex(|lines| + 1, top1 + (second + 1))
    ensures MidrulePass([block], [first, second], 0) == Ok([b2])
    ensures b2 == Join(Spliced(Spliced(lines, k0, MidRule), k1, MidRule))
    ensures Split(b2) == Spliced(Spliced(lines, k0, MidRule), k1, MidRule)
  {
    var b1 := MidruleStep(block, first, lines, top, k0);
    var once := Spliced(lines, k0, MidRule);
    SpliceFirstIndex(lines, k0, MidRule, TopRule);
    b2 := MidruleStep(b1, second + 1, once, top1, k1);
    TwoSteps(block, first, second, b1, b2);
  }

  /** Cumulative shift: mid-rules at offsets `first` and then `second` below the top rule
      (`1 <= first <= second`) land at rows `first` and `second` of the original block, so in
      the result at lines `top + first` and `top + second + 1`; with `[2, 2]` they are the
      two consecutive lines two and three below the marker. */
  lemma TwoMidrulesBelow(block: string, first: int, second: int)
    requires TopRule in Split(block)
    requires 1 <= first <= second
    requires FirstIndex(Split(block), TopRule).value + second <= |Split(block)|
    ensures MidrulePass([block], [first, second], 0).Ok?
    ensures var lines := Split(block);
            var top := FirstIndex(lines, TopRule).value;
            MidrulePass([block], [first, second], 0).value ==
              [Join(WithTwoRules(lines, top + first, top + second))]
    ensures var lines := Split(block);
            var top := FirstIndex(lines, TopRule).value;
            Split(MidrulePass([block], [first, second], 0).value[0]) ==
              WithTwoRules(lines, top + first, top + second)
    ensures |Split(MidrulePass([block], [first, second], 0).value[0])| == |Split(block)| + 2
    ensures var top := FirstIndex(Split(block), TopRule).value;
            Split(MidrulePass([block], [first, second], 0).value[0])[top + first] == MidRule
    ensures var top := FirstIndex(Split(block), TopRule).value;
            Split(MidrulePass([block], [first, second], 0).value[0])[top + second + 1] == MidRule
  {
    var lines := Split(block);
    var top := FirstIndex(lines, TopRule).value;
    InsertIndexClamp(|lines|, top + first);
    InsertIndexClamp(|lines| + 1, top + (second + 1));
    var b2 := MidrulePassTwice(block, first, second, lines, top, top + first, top, top + second + 1);
    DoubleSplice(lines, top + first, top + second);
    var after := WithTwoRules(lines, top + first, top + second);
    assert Split(b2) == after;
  }

  /** A mid-rule at offset 0 goes in above the top rule and so pushes the marker down; the
      `+ count` shift then applies on top of the moved marker, so `[0, second]` puts the second
      rule before original row `top + second + 1`. */
  lemma MidruleAtMarkerShifts(block: string, second: int)
    requires TopRule in Split(block)
    requires 0 <= second && FirstIndex(Split(block), TopRule).value + second + 1 <= |Split(block)|
    ensures MidrulePass([block], [0, second], 0).Ok?
    ensures var lines := Split(block);
            var top := FirstIndex(lines, TopRule).value;
            MidrulePass([block], [0, second], 0).value == [Join(WithTwoRules(lines, top, top + second + 1))]
    ensures var lines := Split(block);
            var top := FirstIndex(lines, TopRule).value;
            Split(MidrulePass([block], [0, second], 0).value[0]) == WithTwoRules(lines, top, top + second + 1)
  {
    var lines := Split(block);
    var top := FirstIndex(lines, TopRule).value;
    InsertIndexClamp(|lines|, top);
    InsertIndexClamp(|lines| + 1, top + 1 + (second + 1));
    var b2 := MidrulePassTwice(block, 0, second, lines, top, top, top + 1, top + second + 2);
    DoubleSplice(lines, top, top + second + 1);
    var after := WithTwoRules(lines, top, top + second + 1);
    assert Split(b2) == after;
  }
}
