# Tree table: expand/collapse and visibility model

This project models the logic of the `TreetableComponent` of ng-material-treetable,
an Angular widget that shows a forest of nodes as a flat, indented table. A row
shows only when all of its ancestors are expanded. Clicking a row expands or
collapses it.

The model has four modules:

- `Types` (`types.dfy`) holds the caller's nodes and their JavaScript-typed
  properties, the flattened `Row` (`id`, `depth`, `isExpanded`, `isVisible`), the
  column headers, the options and the validator's verdict. Each searchable root
  tree appears as a `SearchIndex`, a map from a node id to the ids on its
  `pathToRoot`.
- `Visibility` (`visibility.dfy`) is the visibility resolver. It models
  `find` as the first row with a given id, and `every` over the searchable trees
  and over each path as left-to-right recursion. `Resolve` is the table after
  every row's `isVisible` has been recomputed. `VisibleRows` is the data source
  that `generateDataSource` filters out of the table.
- `Columns` and `Indentation` (`columns.dfy`) hold the pure parts. They cover
  column precedence, the `actions` column, which keys `extractNodeProps` keeps
  (`typeof null` and arrays count as "object"), the configuration error and its
  message, and `formatIndentation`.
- `Treetable` (`treetable.dfy`) is the component as a class. Its fields are the
  inputs, `searchableTree`, `treeTable` (the source's `_treeTable`), the columns,
  `dataSource` and the `expandedNodes` set. `ShowExpandedChildren` is a loop that
  assigns `isVisible` row by row and reads the table as it is being updated, as
  the `forEach` does. `OnNodeClick` is the toggle. `Valid()` is the invariant
  every public operation keeps: every row's visibility is resolved and the data
  source is the visible rows.

The converter, flatten, search and validator services are not part of this
model. Their results are parameters: the searchable indexes, the flattened rows
and the validation verdict. A clicked row is given by its position in
`treeTable`.

## Model

| member | source | states |
|---|---|---|
| `Visibility.FindRow` | src/app/treetable/component/treetable.component.ts:135 | the lookup gives the first row with the id, and gives nothing exactly when no row has it |
| `Visibility.ExpandedRowFirst` | src/app/treetable/component/treetable.component.ts:135 | the expansion read for an ancestor id is that of the first row carrying the id |
| `Visibility.PathOf` | src/app/treetable/component/treetable.component.ts:133-134 | when the search misses in a searchable tree, the path is empty (the `fold` default) |
| `Visibility.AllExpanded` | src/app/treetable/component/treetable.component.ts:135 | the `every` over one path holds iff, position by position, the row found for each id on it is expanded |
| `Visibility.AllExpandedIff` | src/app/treetable/component/treetable.component.ts:135 | the `every` over one path holds iff the row of each ancestor on it is expanded |
| `Visibility.VisibleIn` | src/app/treetable/component/treetable.component.ts:132-135 | with no searchable tree every row is visible, since `every` over an empty array holds; `VisibleInIff` gives the verdict in general |
| `Visibility.VisibleInIff` | src/app/treetable/component/treetable.component.ts:132-135 | a row is visible iff, in every searchable tree, every ancestor on its path (an empty path when the search misses) is an expanded row |
| `Visibility.RootAlwaysVisible` | src/app/treetable/component/treetable.component.ts:132-134 | a row with an empty path in every searchable tree (a root, or an id the search misses) needs no lookup and is always visible |
| `Visibility.MissingTreeIrrelevant` | src/app/treetable/component/treetable.component.ts:132-134 | inserting, anywhere in the list, any searchable tree in which the search for the id misses does not change its verdict |
| `Visibility.Resolve` | src/app/treetable/component/treetable.component.ts:130-137 | the resolver writes only `isVisible`: length, ids, depths and `isExpanded` are kept, and each `isVisible` is the row's verdict |
| `Visibility.VisibleInSameSkeleton` | src/app/treetable/component/treetable.component.ts:131-135 | the verdict reads only ids and `isExpanded`, so rows whose `isVisible` was already rewritten do not change it |
| `Visibility.ResolveSameSkeleton` | src/app/treetable/component/treetable.component.ts:130-137 | two tables that agree on ids, depths and expansion resolve to the same table |
| `Visibility.ResolveIdempotent` | src/app/treetable/component/treetable.component.ts:130-137 | a resolved table satisfies the invariant, and resolving it again changes nothing |
| `Visibility.ResolvedIsFixpoint` | src/app/treetable/component/treetable.component.ts:130-137 | a table whose flags already agree with the verdicts is left as it is |
| `Visibility.VisibleRows` | src/app/treetable/component/treetable.component.ts:90 | the data source is no longer than the table and holds only visible rows; `VisibleRowsAt` fixes its contents and order |
| `Visibility.VisibleIndices` | src/app/treetable/component/treetable.component.ts:90 | the positions of the visible rows: ascending, each visible, and every visible position is among them |
| `Visibility.VisibleRowsAt` | src/app/treetable/component/treetable.component.ts:90 | the data source is exactly the visible rows, in table order: its k-th row is the row at the k-th visible position |
| `Treetable.Toggle` | src/app/treetable/component/treetable.component.ts:111 | the click flips `isExpanded` of the clicked row only; ids, depths and visibility are kept |
| `Treetable.ToggleId` | src/app/treetable/component/treetable.component.ts:106-110 | the clicked id joins the set when its row was collapsed and leaves it when its row was expanded; no other id changes membership |
| `Treetable.TreetableComponent.constructor` | src/app/treetable/component/treetable.component.ts:20-32 | the inputs are bound, the expanded set starts empty, nothing is built yet, and the invariant holds |
| `Treetable.TreetableComponent.OnInit` | src/app/treetable/component/treetable.component.ts:46-68 | the tree becomes a forest and the options are taken; a rejected custom order fails before any column or row is built; otherwise the columns are derived and the data source is built and resolved; the invariant holds either way |
| `Treetable.TreetableComponent.OnChanges` | src/app/treetable/component/treetable.component.ts:70-77 | with the corrected normalisation `Roots`: a present tree change that is not the first one rebuilds the rows from the conversion of its roots, and the invariant holds; the expanded set and columns survive; anything else changes nothing |
| `Treetable.TreetableComponent.CreateDataSource` | src/app/treetable/component/treetable.component.ts:76-83 | installs the searchable trees and rows, resolves visibility and sets the data source to the visible rows; the invariant holds afterwards |
| `Treetable.TreetableComponent.ShowExpandedChildren` | src/app/treetable/component/treetable.component.ts:130-138 | the row-by-row loop leaves exactly the resolved table, and nothing else in the component changes |
| `Treetable.TreetableComponent.OnNodeClick` | src/app/treetable/component/treetable.component.ts:105-115 | the expanded set and the clicked row's expansion flip together; the table is re-resolved, the data source regenerated, the clicked row returned as emitted, and the invariant kept |
| `Treetable.CollapseHidesDescendants` | src/app/treetable/component/treetable.component.ts:105-112 | collapsing a row (the first row with that id, the one the lookup finds) hides every row that has its id on a path to the root |
| `Treetable.ClickSparesNonDescendants` | src/app/treetable/component/treetable.component.ts:105-112 | a click leaves the visibility of every row without the clicked id among its ancestors unchanged |
| `Treetable.ClickTwiceRestoresRows` | src/app/treetable/component/treetable.component.ts:106-112 | two clicks on the same row restore every row, including every expansion and visibility flag |
| `Treetable.ClickTwiceRestoresExpandedSet` | src/app/treetable/component/treetable.component.ts:106-110 | two clicks on the same row restore the expanded set, provided the id was in it exactly when the row was expanded |
| `Treetable.ChainScenario` | src/app/treetable/component/treetable.component.ts:105-137 | for a collapsed chain A > B > C only A shows; after a click on A, B shows too; after a click on B, C shows too |
| `Treetable.SingleNodeChangeFails` | src/app/treetable/component/treetable.component.ts:70-77 | a change notification with a single node reaches `tree.map` on a non-array, although initialisation accepts a single node |
| `Treetable.ChangedRootsAsWritten` | src/app/treetable/component/treetable.component.ts:77 | the input `createDataSource` maps over, as written: a forest is passed on as its roots, and a single node has no `map` and fails |
| `Treetable.Roots` | src/app/treetable/component/treetable.component.ts:47 | initialisation's normalisation, which also serves as the corrected change input: a single node becomes a one-root forest, and a forest is taken as the change path already takes it |
| `Columns.ToCustomHeader` | src/app/treetable/component/treetable.component.ts:55-59 | one header per column name, with label equal to key |
| `Columns.KeysOfCustomHeader` | src/app/treetable/component/treetable.component.ts:55-65 | the keys of a derived header are the column names it came from |
| `Columns.DisplayedColumns` | src/app/treetable/component/treetable.component.ts:60-64 | a custom header wins; otherwise the custom order gives the keys; otherwise the first root's non-object properties do; derived headers have label equal to key |
| `Columns.ExtendedColumns` | src/app/treetable/component/treetable.component.ts:65-66 | the displayed keys, in order, followed by `"actions"` exactly when actions are configured |
| `Columns.NonObjectKeys` | src/app/treetable/component/treetable.component.ts:85-87 | a key is kept iff some property with that key has a value whose `typeof` is not "object" |
| `Columns.NonObjectKeysAppend` | src/app/treetable/component/treetable.component.ts:85-87 | the filter keeps key order: the kept keys of two runs of properties laid end to end are the kept keys of the first run followed by those of the second |
| `Columns.ExtractNodeProps` | src/app/treetable/component/treetable.component.ts:85-87 | a key is extracted iff some property of the node's value carries it with a `typeof` other than "object" |
| `Columns.ObjectValuedKeyDropped` | src/app/treetable/component/treetable.component.ts:86 | with distinct keys, a null, object or array property never becomes a column |
| `Columns.AllPrimitiveKeysKept` | src/app/treetable/component/treetable.component.ts:86 | when no property is object-valued, every key becomes a column, in key order |
| `Columns.CustomOrderError` | src/app/treetable/component/treetable.component.ts:49-54 | initialisation fails iff a custom order is given and the validator rejects it; the error carries the reported names and the message |
| `Columns.QuotedList` | src/app/treetable/component/treetable.component.ts:52 | the joined list is empty exactly when no name is reported, and otherwise starts and ends with a quote |
| `Columns.QuotedListNames` | src/app/treetable/component/treetable.component.ts:52 | each reported name appears, quoted, at its place in the comma-separated list |
| `Columns.ErrorMessage` | src/app/treetable/component/treetable.component.ts:51-53 | the message starts with the fixed prefix, ends with " incorrect or missing in customColumnOrder", and holds exactly the quoted, comma-separated list in between |
| `Columns.ErrorMessageNames` | src/app/treetable/component/treetable.component.ts:51-53 | the error message names each reported property, quoted |
| `Indentation.Repeat` | src/app/treetable/component/treetable.component.ts:94 | the repetition is empty exactly when the count is zero or the string is empty, and holds only characters of the repeated string |
| `Indentation.FormatIndentation` | src/app/treetable/component/treetable.component.ts:93-95 | the indentation fails with a RangeError exactly when `depth * step` is negative |
| `Indentation.IndentationShape` | src/app/treetable/component/treetable.component.ts:93-95 | a successful indentation is `depth * step` copies of `&nbsp;` and nothing else; with the default step it holds `5 * depth` copies |

## Findings

| source | as written | input that shows it | evidently intended | confidence | as-written member | corrected member |
|---|---|---|---|---|---|---|
| src/app/treetable/component/treetable.component.ts:70-77 | `ngOnChanges` passes `changes.tree.currentValue` straight to `createDataSource`, which calls `tree.map` | a later change whose new `tree` is one `Node` rather than an array: `tree.map` is not a function, so a TypeError is thrown | normalise a single node to a one-root forest, as `ngOnInit` does at line 47 (the `tree` input is typed as one node or an array of nodes) | medium, not executed | `Treetable.SingleNodeChangeFails` | `Treetable.Roots` |

## Left out

- The converter, flatten, `searchById` and validator services are not part of this model. Their results are inputs: the searchable indexes, the flattened rows and the validation verdict. So how ids, depths and initial `isExpanded` are assigned (including `defaultExpanded`) is not modelled, nor how the validator computes its symmetric difference.
- `parseOptions` (lodash `defaults`) is not modelled. `OnInit` receives the already-resolved options.
- `formatElevation` and `checkVisibilityForAction` are presentation-only and read properties by reflection.
- `onActionClicked`, `onTreeLabelClick` and the `Subject` emissions are event plumbing. `OnNodeClick` returns the row it would emit.
- The `treeTable` getter, the Angular decorators and lifecycle wiring, the `ElementRef` deprecation warning, and the `MatTableDataSource` wrapper are framework plumbing. The data source is the filtered sequence the wrapper holds. Angular's own rebinding of the `tree` input before `ngOnChanges` is not modelled.
- A row's `value` payload is not carried on `Row`. No modelled operation reads it.
- Rows are values in a sequence, and the clicked node is an index into the table. Object identity and aliasing between `dataSource` and `_treeTable` rows are not modelled. A click on a row object that is not in the current table is not modelled either.
- `Treetable.TreetableComponent.OnChanges` models the corrected program: it rebuilds from `Roots`, which normalises a single node to a one-root forest. As written, a later change to a single node throws a TypeError at `tree.map` (line 77) and changes no state; `ChangedRootsAsWritten` and `SingleNodeChangeFails` model that behaviour (see Findings).
- `Treetable.TreetableComponent.ShowExpandedChildren` requires every ancestor id on every row's path to have a row. That is slightly stronger than what the code needs, because `every` stops at the first collapsed ancestor and never looks up the ids after it.
- `Treetable.TreetableComponent.OnInit` requires a non-empty forest when neither a custom header nor a custom order is given, because `extractNodeProps(this.tree[0])` would dereference `undefined`. What the validator does with an empty forest is not modelled.
- `Indentation.FormatIndentation` treats `step` as an integer. Fractional, NaN and infinite steps are not modelled.
- The searchable trees and the visibility rule do not depend on the order of `pathToRoot`, so that order is not fixed here. The expanded set is a plain set of ids, as in the code, not an override map.
