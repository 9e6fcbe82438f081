# Wide tables as LaTeX sub-tables

`Wide_Table.py` turns a table that is too wide for a page into a series of LaTeX sub-tables:

- `generate_subtables` cuts the columns into blocks of `no_cols` columns plus one remainder block;
- `latex_subtables` renders every block with the data-frame library's `to_latex`;
- `wrap_table` wraps every rendered block in a `\begin{…}` / `\end{…}` container;
- `insert_command` puts a command line into every block, at an offset from its first `\toprule` line;
- `combine_subtables` joins the blocks into one document, a `\newpage` line before each;
- `wide_table` runs these steps in a fixed order: centring (a `table` container with `\centering`
  above the top rule), then the `landscape` container, then one `\midrule` per requested offset,
  then the combination.

This project models the file's six functions and proves what they do.

| module (file) | models |
|---|---|
| `Results` (`results.dfy`) | the two ways the code fails (`ZeroDivisionError` from `divmod`, `IndexError` from `top_rule[0]`) as `Result`/`Option` values |
| `Lines` (`lines.dfy`) | Python's `str.split("\n")` and `"\n".join`, and how they relate |
| `Partitioner` (`partitioner.dfy`) | `generate_subtables`, with Python's `divmod` and slice semantics |
| `Decorator` (`decorator.dfy`) | `wrap_table` and `insert_command`, with CPython's `list.insert` index rule |
| `Assembler` (`assembler.dfy`) | `combine_subtables` |
| `Orchestrator` (`orchestrator.dfy`) | `latex_subtables` and `wide_table` |

How the model represents the source:

- A table is a `seq<C>` of columns with an arbitrary column type `C`.
- A rendered block is a `string`.
- `to_latex` is the parameter `render: seq<C> -> string`. Where a property depends on the
  rendering, the lemma says what it needs of `render`: a `\toprule` line that is not the last
  line (`Decorator.Anchored`), as `to_latex` output has.
- `midrules=None` is `Option.None`, which the loop treats as the empty list.

The loops of `generate_subtables`, `insert_command` and `wide_table` are methods with loop
invariants, each proved equal to a specification function: `GenerateSubtables` to `Subtables`,
`InsertCommand` to `InsertCommandSpec`, its loop body `InsertIntoOneBlock` to `InsertIntoBlock`,
the mid-rule loop `MidruleLoop` to `MidrulePass`, and `WideTable` to `WideTableSpec`. The
properties are lemmas about those functions.
The list comprehensions (`wrap_table`, `latex_subtables`, `combine_subtables`) are functions.

Behaviour at the edges, as the code has it:

- **Remainder 0.** When the width divides the column count evenly, the remainder is 0. The
  slice `-remainder:` is then `0:`, so the whole table is appended a second time, after the
  full blocks. `Partitioner.SubtablesLastBlock` and `Partitioner.SubtablesCoverage` state this.
- **Width 0.** `divmod` raises `ZeroDivisionError`, which is `Error.ZeroDivision`
  (`Partitioner.Subtables`).
- **Negative width.** A negative width is accepted. `divmod` rounds the quotient down to at
  most 0, so the loop appends nothing, and the `-remainder:` slice yields one block
  (`Partitioner.SubtablesNegative`).
- **Mid-rule offsets.** The offsets may be any integer. `list.insert` counts a negative index
  from the end and clamps any index to the list; `Decorator.InsertIndex` models that.
- **Mid-rule positions.** The `count`-th offset goes in at `mr + count` below the top rule, and
  the top rule is searched again each time. This lines up with the original rows only for
  ascending offsets of at least 1 (`Orchestrator.TwoMidrulesBelow`). A rule at offset 0 goes in
  above the top rule and pushes it down, so a later offset lands one row further down
  (`Orchestrator.MidruleAtMarkerShifts`). A smaller offset after a larger one goes in above the
  earlier rule, so it also lands one row further down.

## Model

| member | source | states |
|---|---|---|
| Partitioner.FloorDivMod | Wide_Table.py:17 | Python's `divmod`: quotient times divisor plus remainder is the dividend; the remainder lies in `[0, n)` for a positive divisor and in `(n, 0]` for a negative one; a negative divisor gives a quotient of at most 0 for a non-negative dividend |
| Partitioner.FloorDivModPositive | Wide_Table.py:17 | for a positive width, `divmod` agrees with truncating division and remainder on column counts |
| Partitioner.SliceFromLast | Wide_Table.py:20 | the slice `cols[-r:]` is the last `r` columns, except that for `r == 0` it is the whole table |
| Partitioner.SliceFrom | Wide_Table.py:20 | Python's slice `cols[start:]`: a suffix of the columns, never longer than the table; from a start inside the table it has `len - start` columns, past the end it is empty, and from a negative start it has `-start` columns capped at the table's width |
| Partitioner.FullBlocksSnoc | Wide_Table.py:24-25 | one more loop iteration appends exactly the columns `[x*n, n*(x+1))` |
| Partitioner.FullBlocksWidths | Wide_Table.py:24-25 | the loop's `q` rounds give `q` blocks, each exactly `no_cols` columns wide |
| Partitioner.FullBlocksFlatten | Wide_Table.py:24-25 | the full blocks, concatenated in order, are exactly the first `q*n` columns |
| Partitioner.GenerateSubtables | Wide_Table.py:4-28 | the loop that appends one block per `range(no_subtables)` step and then the remainder slice returns `Subtables`: the `divmod` error at width 0, otherwise the full blocks followed by the remainder block |
| Partitioner.Subtables | Wide_Table.py:4-28 | fails exactly when the width is 0, with the `divmod` division by zero; a success has at least one sub-table, and every sub-table but the last is exactly `no_cols` columns wide |
| Partitioner.SubtablesPositive | Wide_Table.py:16-26 | for a positive width: the `cols / no_cols` full blocks, then the last `cols % no_cols` columns, or the whole table when that remainder is 0 |
| Partitioner.SubtablesCount | Wide_Table.py:17-26 | a positive width always succeeds, with exactly `cols / no_cols + 1` sub-tables |
| Partitioner.SubtablesBlockAt | Wide_Table.py:24-25 | for `x < cols / no_cols`, sub-table `x` is columns `[x*no_cols, (x+1)*no_cols)`, and that range lies inside the table |
| Partitioner.SubtablesLastBlock | Wide_Table.py:17-26 | the last sub-table is the last `remainder` columns when the remainder is positive, and the whole table when it is 0 |
| Partitioner.SubtablesCoverage | Wide_Table.py:16-28 | with a positive remainder the sub-tables, concatenated in order, are exactly the columns; at remainder 0 they are the columns twice over |
| Partitioner.SubtablesNegative | Wide_Table.py:17-26 | a negative width gives a single sub-table, the columns from `-remainder` (Python's non-positive remainder) on, capped at the table's width |
| Partitioner.SubtablesScenarios | Wide_Table.py:16-28 | 10 columns at width 4 give widths 4, 4, 2; 8 columns at width 4 give 4, 4 and the whole 8-column table; 10 columns at width -4 give columns 2 to 9; width 0 fails |
| Orchestrator.LatexSubtables | Wide_Table.py:31-40 | one rendered string per sub-table, in the same order, each the renderer's output for that sub-table |
| Lines.Split | Wide_Table.py:69 | `split("\n")` gives at least one piece, and no piece holds a newline |
| Lines.Join | Wide_Table.py:72 | `"\n".join` of no lines is empty; otherwise its length is the lines' total length plus one newline between each pair |
| Lines.JoinSplit | Wide_Table.py:69-72 | joining the pieces of a split with newlines restores the text exactly |
| Lines.SplitJoin | Wide_Table.py:69-72 | splitting the newline join of one or more newline-free lines gives those lines back |
| Lines.SplitOneLine | Wide_Table.py:69 | a text without a newline splits into itself alone |
| Lines.SplitAppend | Wide_Table.py:69 | the split of a concatenation is the split of both parts, with the last piece of the first fused to the first piece of the second |
| Lines.JoinAppend | Wide_Table.py:72 | the join of two non-empty line lists is their joins with one newline in between |
| Lines.SplitLineThenRest | Wide_Table.py:69 | a newline-free line, a newline and then any text split into that line followed by the text's own pieces |
| Decorator.WrapTable | Wide_Table.py:43-53 | the same number of blocks in the same order; block `i` is the opening directive, a newline, block `i` unchanged, then the closing directive and a newline, with no newline added between the block and `\end` |
| Decorator.Wrap | Wide_Table.py:53 | wrapping one block loses nothing: stripping the leading `\begin{…}` line and the trailing `\end{…}` with its newline gives the block back |
| Decorator.WrapTableAppend | Wide_Table.py:53 | wrapping works block by block, so it distributes over concatenation of block lists |
| Decorator.WrapLines | Wide_Table.py:53 | the lines of a wrapped block: the opening directive, then the block's lines with the closing directive fused onto the last one, then an empty line |
| Decorator.FirstIndex | Wide_Table.py:70 | the index of the first line equal to the marker; None exactly when no line equals it, where `top_rule[0]` raises |
| Decorator.InsertIndex | Wide_Table.py:71 | the position `list.insert` uses always lies within the list |
| Decorator.InsertIndexClamp | Wide_Table.py:71 | a non-negative index past the end of the list appends |
| Decorator.ListInsert | Wide_Table.py:71 | `list.insert(i, x)`: one element more, `x` at the clamped index, the elements before it unchanged and those after it shifted by one |
| Decorator.ListInsertSpliced | Wide_Table.py:71 | `list.insert(i, x)` in its cut form equals the element-wise splice at the clamped index |
| Decorator.SpliceRemove | Wide_Table.py:71 | removing the inserted line gives back the old lines in their order |
| Decorator.InsertIntoOneBlock | Wide_Table.py:68-73 | the loop body: split, find the first top rule, `insert`, re-join; None when the block has no top-rule line |
| Decorator.InsertIntoBlock | Wide_Table.py:69-72 | inserting into one block fails exactly when none of its lines is `\toprule` (where `top_rule[0]` raises) |
| Decorator.InsertIntoBlockIs | Wide_Table.py:69-72 | one block's insertion, written as `list.insert` at the first top rule plus `row` and then re-joined |
| Decorator.InsertCommand | Wide_Table.py:56-75 | the loop over all blocks returns `InsertCommandSpec`: every block with the command inserted, or the error of the first block without a top rule |
| Decorator.InsertCommandSpec | Wide_Table.py:67-75 | the only failure is the missing top rule; a success has exactly one block per input block |
| Decorator.InsertCommandShape | Wide_Table.py:67-75 | `insert_command` fails exactly when some block has no line equal to `\toprule`, and the failure is that error; on success it keeps the number and order of blocks and inserts into each block independently |
| Decorator.InsertIntoBlockSplice | Wide_Table.py:69-72 | for a newline-free command, the new block's lines are the old lines with the command spliced in at the first top rule plus `row`, clamped |
| Decorator.InsertIntoBlockLines | Wide_Table.py:62-72 | for a newline-free command: the new lines equal `list.insert` of the command at the first top rule plus `row`; there is one line more; the command sits at the clamped index; removing it gives the old lines in order; a non-negative index past the end appends |
| Decorator.InsertAboveTopRule | Wide_Table.py:62-71 | with `row == 0`, the command lands directly above the first top rule, which moves down by one and is still the first top rule |
| Decorator.SpliceFirstIndex | Wide_Table.py:70-71 | inserting a line other than the marker moves the first marker down by one exactly when the insertion point is at or above it |
| Decorator.SpliceKeepsAnchor | Wide_Table.py:70-71 | inserting a non-marker line keeps a top rule in a non-final line |
| Decorator.WrapAnchored | Wide_Table.py:53 | wrapping keeps a block's first top rule off its last line and moves that top rule down by one line |
| Decorator.WrapNoTopRule | Wide_Table.py:53 | wrapping cannot create a top-rule line |
| Decorator.InsertAnchored | Wide_Table.py:68-73 | inserting a newline-free non-marker command into an anchored block succeeds, keeps the block anchored, and moves the first top rule down exactly when the command went in at or above it |
| Decorator.InsertKeepsHeader | Wide_Table.py:68-73 | an insertion at a non-negative offset never lands inside opening lines that hold no top rule, so the block still starts with them |
| Decorator.InsertBelowHeader | Wide_Table.py:68-73 | when a block's lines start with top-rule-free opening lines and it has a top rule, inserting at a non-negative offset succeeds and the result still starts with those lines and a newline |
| Assembler.CombineBase | Wide_Table.py:87-88 | no blocks give the empty document; one block gives a page break followed by the block |
| Assembler.CombineAppend | Wide_Table.py:87-88 | combining a concatenation of block lists is the concatenation of the combined parts |
| Assembler.CombineAt | Wide_Table.py:87-88 | every block appears right after its own page break; the text before it combines the blocks before it, and the text after it combines the blocks after it |
| Assembler.CombineStart | Wide_Table.py:87-88 | the document opens with a page break followed by the start of the first block |
| Assembler.CombineSubtables | Wide_Table.py:78-90 | the document is empty exactly when there are no blocks, and holds at least one `\newpage` line's length per block |
| Orchestrator.WideTable | Wide_Table.py:93-128 | the steps run in the source's order (partition, render, centre pass, landscape wrap, mid-rule loop, combine) and produce `WideTableSpec`, errors included |
| Orchestrator.WideTableSpec | Wide_Table.py:110-128 | fails only with the `divmod` error or the missing-top-rule error; fails with the `divmod` error exactly when the width is 0; a success is at least as long as one page break |
| Orchestrator.WideTableStartsWithPage | Wide_Table.py:87-88 | a successful document begins with `\newpage` and its newline |
| Orchestrator.WideTablePlain | Wide_Table.py:110-128 | with no centring, no landscape and no mid-rules, the result is the combination of the rendered sub-tables; width 0 is the `divmod` error |
| Orchestrator.WideTableSucceeds | Wide_Table.py:110-128 | when every rendered sub-table is anchored, every non-zero width and every choice of options succeed |
| Orchestrator.WideTableMissingTopRule | Wide_Table.py:114-124 | a rendered sub-table without any top-rule line makes the call fail with the missing-top-rule error whenever a command is inserted (centring, or at least one mid-rule) |
| Orchestrator.DecorateSucceeds | Wide_Table.py:114-124 | decorating anchored blocks succeeds for every option and keeps the number of blocks |
| Orchestrator.Decorate | Wide_Table.py:114-124 | the passes between rendering and combining fail only with the missing-top-rule error, and a success keeps the number of blocks |
| Orchestrator.CenterPass | Wide_Table.py:114-116 | the centre pass fails only with the missing-top-rule error, and a success keeps the number of blocks |
| Orchestrator.MidruleList | Wide_Table.py:121-122 | `None` becomes no offsets, a given list is used as it is; no offsets exactly when `None` or an empty list was given |
| Orchestrator.MidrulePass | Wide_Table.py:123-124 | the mid-rule loop, from any iteration on, fails only with the missing-top-rule error, and a success keeps the number of blocks |
| Orchestrator.MidruleLoop | Wide_Table.py:123-124 | the `enumerate` loop, inserting at `mr + count` with the top rule searched again each time, returns `MidrulePass` from iteration 0 |
| Orchestrator.MidrulePassAnchored | Wide_Table.py:123-124 | on anchored blocks the mid-rule loop succeeds for any offsets and keeps the blocks anchored |
| Orchestrator.CenterPassHeader | Wide_Table.py:114-116 | after a successful centre pass every block still opens with the `table` container's `\begin` line on its own line |
| Orchestrator.CenterPassPlacesCentering | Wide_Table.py:114-116 | on anchored blocks the centre pass succeeds, keeps every block anchored, and in every block the line directly above the first `\toprule` is `\centering` |
| Orchestrator.CenteredBlock | Wide_Table.py:116 | inserting `\centering` at offset 0 into an anchored block leaves a top rule, and the line directly above the first one is `\centering` |
| Orchestrator.MidrulePassKeepsHeader | Wide_Table.py:123-124 | mid-rules at non-negative offsets keep the opening container lines of every block in place |
| Orchestrator.DecorateNesting | Wide_Table.py:114-124 | with both passes on and non-negative offsets, every block opens with `\begin{landscape}` and then `\begin{table}`, each on its own line: landscape is the outer container |
| Orchestrator.WideTableNesting | Wide_Table.py:110-128 | with both passes on and non-negative offsets, a successful document starts with a page break, then the landscape opening line, then the table opening line |
| Orchestrator.WithTwoRulesCuts | Wide_Table.py:124 | the lines with two mid-rules are the lines cut at the two rows, with a mid-rule in each cut |
| Orchestrator.DoubleSplice | Wide_Table.py:124 | inserting a mid-rule at row `a` and then at row `b + 1` puts the rules before original rows `a` and `b` |
| Orchestrator.MidrulePassTwice | Wide_Table.py:123-124 | two loop iterations on one block: the first rule goes in at the first top rule plus the offset; the top rule is searched again, and the second rule goes in at the new top rule plus the offset plus one |
| Orchestrator.TwoMidrulesBelow | Wide_Table.py:123-124 | the cumulative `mr + count` shift: offsets `1 <= first <= second` below the top rule land before original rows `top + first` and `top + second`, so at result lines `top + first` and `top + second + 1`, two lines more in all |
| Orchestrator.MidruleAtMarkerShifts | Wide_Table.py:123-124 | a first mid-rule at offset 0 goes in above the top rule and pushes it down, so `[0, second]` puts the second rule before original row `top + second + 1`, not `top + second` |

## Left out

- The data-frame library: a table is modelled as its sequence of columns, and `iloc` column slicing as sequence slicing. Row contents do not affect any step.
- `to_latex` comes from the data-frame library. It is the parameter `render`, and the lemmas that need a top-rule line in its output say so in their preconditions.
- Python's in-place list updates: the `append` calls and `row_split.insert` build new sequences. No other code holds those lists, so nothing can observe the difference.
- The default arguments of `wide_table` (`landscape=True`, `center=True`, `midrules=None`) are ordinary parameters of `Orchestrator.WideTable`.
- Errors that come from argument types, such as a non-integer width or a non-string command, cannot arise in the typed model. The only failures modelled are the `divmod` division by zero and the `IndexError` from a block without a top rule.
- Decorator.InsertIntoBlockLines, Decorator.InsertAboveTopRule and Decorator.InsertAnchored: the line-level statements hold only for commands without a newline. A newline inside a command makes the re-split block gain more than one line. `Decorator.InsertIntoBlock` itself accepts any command.
- Orchestrator.DecorateNesting, Orchestrator.WideTableNesting and Orchestrator.MidrulePassKeepsHeader: these need non-negative mid-rule offsets. A negative offset can put the mid-rule above the container lines, and the lemmas do not describe where it goes.
- Orchestrator.TwoMidrulesBelow and Orchestrator.MidruleAtMarkerShifts cover one block and two offsets. Longer offset lists are covered by the recursive `MidrulePass` specification and the proved loop of `Orchestrator.WideTable`. The per-block line positions are not stated for them.
