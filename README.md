# Sankey transform of the bank-transaction alluvial chart

The Streamlit script `app.py` loads a table of bank transactions and draws it
as a Sankey (alluvial) diagram. Each row has six hierarchy labels (Region,
Subregion, Area, Branch, Account Type, Transaction To) and two amounts
(Credit, Debit). The script does this in four steps:

1. It fills missing amounts with 0.
2. It adds a `Transaction Value` column holding Credit + Debit.
3. It builds the node list by concatenating the six hierarchy columns and
   keeping the unique labels. It then maps each node label to its position.
4. It loops over the rows and appends five links per row to three parallel
   lists: `source`, `target` and `value`. The links follow the chain of
   adjacent levels, and each carries the row's full value.

This project models that transform and proves what it guarantees.

Modules:

- `Wrappers` (`wrappers.dfy`): `Option` for a missing cell, `Result` for a
  lookup that raises.
- `DataFrame` (`data_frame.dfy`): one row (`Levels`, `Record`), the hierarchy
  columns and their column-major concatenation, and `fillna`. It also holds
  the class `Frame`, the dataframe whose amount columns the script
  overwrites in place and to which it adds the `Transaction Value` column.
- `NodeIndex` (`node_index.dfy`): `Unique` (pandas `unique()`, with the
  order of first appearance) and `NodeIndices` (the dictionary
  comprehension).
- `SankeyLinks` (`sankey_links.dfy`): the five links of a row (`RowLinks`),
  the specification of the whole loop (`ExpectedLinks`), the loop itself as
  a method (`BuildLinks`) and the laws it obeys.
- `Sankey` (`sankey.dfy`): the script body from filling the amounts to the
  finished links (`PrepareTable`, `BuildSankey`), and the end-to-end
  properties.

Amounts are unbounded integers and a missing amount is `None`. When a label
has no entry in the dictionary, Python's `KeyError` becomes
`Failure(label)`. `BuildSankey` proves that this never happens when the
index is built from the same rows.

## Model

| member | source | states |
|---|---|---|
| `DataFrame.LeadingColumnsLabels` | app.py:32-39 | the concatenation of the first k columns holds exactly the labels that occur in those columns |
| `DataFrame.LeadingColumnsPrefix` | app.py:32-39 | the concatenation of the first k columns is a prefix of the full Region..Transaction To concatenation |
| `DataFrame.FillNa` | app.py:25-26 | after `fillna(fill)` the column has the same length, no cell is missing, present amounts are unchanged and missing ones become `fill` |
| `DataFrame.Frame.constructor` | app.py:15-17 | the dataframe holds the parsed rows column by column and has no Transaction Value column yet |
| `DataFrame.Frame.FillMissingAmounts` | app.py:25-26 | Credit and Debit are replaced by their `fillna(0)` versions; no amount is missing afterwards; the hierarchy columns are untouched |
| `DataFrame.Frame.AddTransactionValue` | app.py:29 | the new Transaction Value column has one entry per row, equal to that row's credit plus debit; the other columns are untouched |
| `NodeIndex.Unique` | app.py:32-39 | `unique()` returns a duplicate-free sequence with exactly the labels of its input, no longer than the input |
| `NodeIndex.UniqueFirstSeenOrder` | app.py:32-39 | `unique()` lists labels in strictly increasing order of their first position in the input |
| `NodeIndex.UniqueCharacterised` | app.py:32-39 | any duplicate-free sequence of the input's labels in first-seen order equals `Unique` of the input, so that order fixes the node list |
| `NodeIndex.UniqueExtends` | app.py:32-39 | the unique labels of a prefix of the input open the unique labels of the whole input |
| `NodeIndex.NodeIndices` | app.py:42 | the dictionary's keys are exactly the node labels; each maps to a position holding that label, the last one if the label repeats (later entries overwrite earlier ones) |
| `NodeIndex.NodeIndicesBijection` | app.py:42 | on a duplicate-free node list, `node_indices[nodes[i]] == i` for every i, the values are exactly 0..len(nodes)-1 and there are len(nodes) entries |
| `SankeyLinks.MissingLabel` | app.py:49-70 | gives no label exactly when all six labels of the row have an index; otherwise it gives a label of the row that has no index, and every label before it in the lookup order (Region, Subregion, Area, Branch, Account Type, Transaction To) has one |
| `SankeyLinks.ExpectedLinksSucceeds` | app.py:47-71 | the loop finishes without a `KeyError` exactly when every label of every row has an index |
| `SankeyLinks.ExpectedLinksLength` | app.py:45-71 | after the loop, `source`, `target` and `value` each hold 5 entries per row, and none for an empty table; parallel links are never merged |
| `SankeyLinks.ExpectedLinksRows` | app.py:47-71 | entries 5q..5q+4 are row q's links Region→Subregion, Subregion→Area, Area→Branch, Branch→Account Type, Account Type→Transaction To, each given as `node_indices` of the two labels and carrying the row's whole value |
| `SankeyLinks.ExpectedLinksFailure` | app.py:47-71 | on a `KeyError`, the missing label is the first one looked up in the first row that has a missing label |
| `SankeyLinks.ExpectedLinksUseIndices` | app.py:49-70 | every source and target entry is a value of the dictionary |
| `SankeyLinks.BuildLinks` | app.py:45-71 | the loop over the rows produces exactly `ExpectedLinks`; it succeeds exactly when every label is indexed, and then each list has length 5 × rows |
| `Sankey.MissingAmountCountsZero` | app.py:25-29 | a missing Credit or Debit adds 0 to the row's value, e.g. no credit and debit 50000 gives 50000 |
| `Sankey.NodesAreDistinctLabels` | app.py:32-39 | the node list has no duplicate labels and holds every label of every hierarchy column; a label used at two levels is one node, so the number of nodes equals the number of distinct labels |
| `Sankey.NodesFollowLevelOrder` | app.py:32-39 | the node list starts with the unique Region labels, then adds Subregion labels and so on (column-major first-seen order) |
| `Sankey.RowsAreIndexed` | app.py:32-42 | every label of every row is a key of `node_indices` |
| `Sankey.LinksOfRows` | app.py:42-71 | with the index built from the same rows the loop never raises; each row yields its five chain links, and every source and target is a valid position in `nodes` |
| `Sankey.EmptyTable` | app.py:32-71 | zero rows give an empty node list and empty link lists, not an error |
| `Sankey.PrepareTable` | app.py:24-29 | the prepared table keeps the rows' hierarchy labels, and each row's Transaction Value is credit + debit with missing amounts counted as 0 |
| `Sankey.BuildSankey` | app.py:24-71 | the whole transform: the node list is the column-major unique labels, duplicate-free and complete; `node_indices` maps `nodes[i]` to i and has exactly the nodes as keys; the links have 5 entries per row, each row's slice is its chain of five links weighted by credit + debit (missing as 0), and every index is a valid node position |
| `Sankey.SingleRowNodes` | app.py:32-39 | one row with six different labels gives those labels, in level order, as the nodes |
| `Sankey.SingleRowLinks` | app.py:45-71 | that row gives the links 0→1, 1→2, 2→3, 3→4, 4→5, each carrying the row's value |

## Left out

- Streamlit calls (title, subheaders, file uploader, `st.write`, `st.dataframe`, `st.info`, `st.plotly_chart`) are presentation and I/O.
- Reading CSV or Excel files and choosing by file extension (`pd.read_csv`, `pd.read_excel`) is a foreign library. The model starts from rows that are already parsed.
- Building the Plotly figure and its layout (padding, thickness, line colour, title, font size) is a rendering call with no logic in it.
- Floating point and pandas NaN: amounts are unbounded integers and "missing" is `None`. Hierarchy labels are taken to be present strings, because a missing label would become a float NaN key.
- A missing `Credit`, `Debit` or hierarchy column raises `KeyError` in the script. In the model the row type always has every column, so this case cannot arise.
- DataFrame.Frame.AddTransactionValue: requires both amount columns to be filled already. pandas would put NaN in the sum for a missing operand, but the script always fills the columns first, so NaN never reaches the sum.
- SankeyLinks.BuildLinks: checks all six labels of a row before it appends that row's five links. The script instead raises partway through a row. Either way the exception discards the lists, so only the missing label is observable, and the model returns that label.
- `app.py` neither normalises link weights nor colours links, so neither is modelled.
