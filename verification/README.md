# Ticket sample selector — a Dafny model

This project models `filtra_e_seleziona`, the selection routine of a small
ticket-review tool (`app.py`). The routine takes a table of tickets and walks
the assignment groups (`Assegnazione`) in order of first appearance. For each
group it keeps the tickets that are closed (`Stato == 'Chiuso'`), came from the
web (`Sorgente == 'Web'`) and took more than two iterations (`Iterazioni > 2`).
A group takes part only if this leaves at least one `Change` ticket and at
least five other tickets. Each group that takes part contributes six rows:
- its first eligible `Change` ticket;
- five other tickets picked greedily, so that no two share a contact reason
  (`Motivo di Contatto`);
- if the greedy pass finds fewer than five, rows drawn at random from the
  ones not yet picked.

Plain tickets are tried before tickets whose contact reason contains
"Modifica o correzione dati intestatario dominio e database" (in any letter
case). Within a block, those special tickets are moved to the end. Finally
the blocks are concatenated and sorted by group and then by the special
flag.

The model is written as pure functions over sequences:

- `Seqs`: order-preserving filtering (a pandas boolean mask), duplicate
  freedom, `Unique` (first-occurrence order, as `Series.unique()`), and
  generic facts about stable partitions.
- `Text`: ASCII lower-casing, the substring search behind
  `str.contains(..., case=False)`, and Python's code-point order on strings.
- `Tickets`: the `Record` and `Row` datatypes. A `Row` is a record with its
  index label. The module also holds the constants, the eligibility and
  special tests, and the set of contact reasons of a sequence of rows.
- `Sampling`: `DataFrame.sample(k)` as draw-by-draw selection without
  replacement, driven by a supplied sequence of draws.
- `Ordering`: the stable special-last partition of one block and the stable
  sort by (group, special flag).
- `Greedy`: the Change pick, the two greedy reason-claiming scans, and the
  random fallback fill.
- `Selector`: one group's sample and its block.
- `Selection`: the whole routine, `Select`.

## Model

| member | source | states |
|---|---|---|
| Selection.Groups | app.py:29 | The groups visited are exactly the assignment values present in the table, each once. |
| Selection.GroupsOrder | app.py:29 | Groups are visited in order of their first occurrence in the table. |
| Seqs.UniqueOrder | app.py:29 | `Unique` lists elements in the order of their first occurrences. |
| Tickets.RowsFromTable | app.py:29-38 | Labelled rows are the table's records unchanged, and labels identify rows. |
| Selector.CandidateFacts | app.py:33-41 | A group's Change and non-Change candidate lists are duplicate-free. Every candidate is an eligible row of that group, taken from the table. |
| Selector.GroupSample | app.py:33-102 | A group yields a sample exactly when it has at least one eligible Change row and at least five eligible other rows. The sample has six distinct rows. Its first row is the group's first eligible Change row and the rest are eligible non-Change rows of the group. |
| Selector.GroupBlock | app.py:43-110 | A group contributes a block exactly when it qualifies. |
| Greedy.FirstUnclaimed | app.py:59-64 | Finds the first row whose reason is unclaimed; every row before it has a claimed reason, and `None` means all reasons are claimed. |
| Greedy.ChangePick | app.py:58-69 | The Change pick is a Change row. Either its reason was unclaimed and every earlier row's reason was claimed, or every reason was claimed and it is the first row. |
| Greedy.ChangePickIsFirst | app.py:55-69 | With the empty claimed set of line 55 the pick is the first Change row, and the fallback at lines 67-69 is never reached. |
| Greedy.FirstOfEachReason | app.py:80-93 | Reference scan without a cap: rows from the candidates with pairwise different, unclaimed reasons, covering every unclaimed reason of the candidates. |
| Greedy.FirstOfEachReasonPicks | app.py:80-93 | The reference scan keeps exactly those candidates whose reason is unclaimed and carried by no earlier candidate. It keeps them in table order. |
| Greedy.ClaimPicks | app.py:80-93 | Each row one greedy pass claims is the first candidate carrying its unclaimed reason, and the claimed rows keep table order. |
| Greedy.Claim | app.py:80-93 | One greedy pass claims at most `room` rows with fresh, pairwise different reasons. If it stops short of `room`, every candidate reason is claimed. It equals the first `room` rows of the uncapped reference scan. |
| Greedy.ScanOthers | app.py:76-93 | Both passes hold at most five non-Change rows. Their reasons are pairwise different and differ from the Change row's. Below five held, every non-Change reason is held or is the Change row's. Plain rows precede special ones. |
| Greedy.ScanPlainFirst | app.py:79-93 | A special row is held only if every reason among the plain rows is already held or is the Change row's. |
| Greedy.ScanReachesQuota | app.py:79-93 | With at least five non-Change reasons besides the Change row's, the passes hold exactly five rows. |
| Greedy.Unselected | app.py:98 | The rows not yet selected, excluded by index label, are exactly the non-Change rows not held; their number is the rest. |
| Greedy.Fill | app.py:96-99 | The fill keeps the held rows as a prefix and adds only unselected non-Change rows. It reaches exactly five rows when the group has five non-Change rows, adds nothing when five are already held, and never duplicates a row. |
| Sampling.Sample | app.py:98 | `sample(k)` draws without replacement. It may not ask for more rows than the pool holds; the fill at app.py:98 never does. It returns exactly `k` rows, all from the pool, and no row twice. |
| Sampling.SampleCovers | app.py:98 | Every ordered choice of distinct rows from the pool is produced by some sequence of draws, so the model admits every outcome of the random sampler. |
| Ordering.SpecialLast | app.py:104-108 | Reordering a block keeps its rows (as a multiset) and puts every special row after every plain one. It keeps the order within each part. |
| Ordering.StablePartitionUnique | app.py:104-108 | Any special-last arrangement that keeps the order within both parts is the one `SpecialLast` builds. |
| Ordering.SpecialLastHead | app.py:104-108 | A plain row at the head of a sample stays at the head. |
| Seqs.LateLastSplits | app.py:104-108 | A sequence whose late elements come last is its early elements followed by its late ones. |
| Text.ContainsIff | app.py:76-77 | The substring scan succeeds exactly when the needle occurs at some position. |
| Text.ContainsIgnoringCaseIff | app.py:76-77 | `str.contains(..., case=False)` succeeds exactly when, at some position, every character of the phrase equals the reason's character up to letter case. |
| Text.ContainsIgnoringCaseLowered | app.py:76-77 | Lower-casing the reason or the phrase first does not change a case-insensitive match. |
| Text.ExactMatchIgnoringCase | app.py:76-77 | An exact occurrence of the phrase is also a case-insensitive match. |
| Text.LowerStrIdempotent | app.py:76-77 | Lower-casing leaves no capital letter, so doing it twice equals doing it once. |
| Selector.BlockRows | app.py:33-110 | A block has six distinct rows, each an unchanged, eligible table row of that group. |
| Selector.BlockComposition | app.py:40-110 | A block has exactly one Change row, the group's first eligible one, and exactly five non-Change rows. |
| Selector.BlockOrder | app.py:102-110 | A block is in special-last order with each part in sample order. When the Change row is plain, it leads the block. |
| Selector.BlockReasons | app.py:55-110 | A block's contact reasons are pairwise different exactly when the group's non-Change rows carry at least five reasons besides the Change row's. |
| Selector.EnoughReasonsNoFill | app.py:79-99 | With enough reasons the non-Change part is exactly the greedy passes' result, so the random fill adds nothing. |
| Selector.BlockIgnoresDraws | app.py:79-99 | With enough reasons, a group's block does not depend on the random draws. |
| Ordering.SortByKey | app.py:121-127 | The final sort permutes the rows and orders them by (group, special flag). |
| Ordering.SortKeepsSortedFilter | app.py:121-127 | Stability: rows picked out by a mask that were already in key order keep their relative order. |
| Ordering.SortedEqual | app.py:121-127 | Two key-sorted sequences whose rows of each group agree are equal. |
| Text.StrLtTransitive | app.py:127 | The string order used for `Assegnazione` is transitive. |
| Text.StrLtTotal | app.py:127 | Any two different strings are ordered one way or the other. |
| Text.StrLtAsymmetric | app.py:127 | No two strings are each below the other. |
| Selection.SelectPerGroup | app.py:31-127 | The result's rows of any group are exactly that group's block, in block order. A group that does not qualify has no rows in the result. |
| Selection.SelectCharacterised | app.py:112-130 | A sequence is the result exactly when it is key-sorted and its rows of each group form that group's block. |
| Selection.SelectOrder | app.py:121-127 | Groups appear in non-decreasing string order, and within a group special rows come after plain ones. |
| Selection.SelectRows | app.py:33-38 | Every result row is an unchanged input row that is closed, from the web, past two iterations, and from a qualifying group. |
| Selection.SelectDistinct | app.py:112-130 | No input row appears twice in the result. |
| Selection.SelectSize | app.py:43-130 | The result has six rows per qualifying group. |
| Selection.SelectEmpty | app.py:112-134 | The result is empty exactly when no group qualifies. |
| Selection.SelectIgnoresDraws | app.py:96-130 | When every qualifying group has enough different reasons, the result does not depend on the random generator. |

## Left out

- `main` and the Streamlit screen (app.py:157-340) are left out: upload, session state, column check, styling and the copy helpers are presentation only. The model assumes every record carries the seven columns the upload screen checks for.
- `get_excel_download` (app.py:136-155) is left out because it only writes a spreadsheet.
- Randomness: `DataFrame.sample` is driven by a caller-supplied draw sequence for each group (`rng(g)`). Which rows the generator picks is therefore not modelled. `Sampling.SampleCovers` shows that every possible pick is reachable.
- Cell values are plain strings and integers. pandas missing values (`NaN`, and `na=False` in `str.contains`) are left out.
- The model assumes integer-valued iteration counts. `read_excel` yields floats when a cell is blank or fractional, and a value such as 2.5 passes the `> 2` test at app.py:37. The model cannot represent such fractional values.
- Index labels are assumed to be the default 0..n-1 that `read_excel` gives, so a label identifies a row.
- Case-insensitive matching lower-cases ASCII letters only. The phrase is ASCII, but non-ASCII letters in a reason that fold onto it are not modelled.
- The pattern is matched as a literal substring. Regular-expression semantics are left out because the phrase has no metacharacters.
- `sort_values` is modelled as a stable sort on (group, special flag). The source relies on pandas for stability, and the model assumes it.
- The dead `else` at app.py:102 (a qualifying group always has a non-empty non-Change sample) is kept in `GroupSample` as a `None` branch. `GroupSample`'s contract shows it is never taken.
- The docstring at app.py:26 promises that all contact reasons in a block differ. Because of the fallback fill at app.py:95-99, the code keeps that promise only under one condition. The group's eligible non-Change rows must carry at least five reasons besides the reason of the Change pick. The model follows the code. `Selector.BlockReasons` proves that a block's reasons are pairwise different exactly under this condition.
- Dropping the temporary `_is_modifica` column (app.py:130) is implicit: rows are `Record`s and the flag is never stored.
