/** The tree-table component: its state (the expanded-node ids, the flattened
    rows, the searchable trees, the columns and the data source) and the
    operations that change it. */
module Treetable {
  import opened Types
  import opened Visibility
  import opened Columns

  /** The click on row `i`: its `isExpanded` flips and nothing else changes. */
  function Toggle(rows: seq<Row>, i: nat): (r: seq<Row>)
    requires i < |rows|
    ensures SameIds(r, rows)
    ensures r[i].isExpanded == !rows[i].isExpanded
    ensures forall j :: 0 <= j < |rows| ==> r[j].depth == rows[j].depth && r[j].isVisible == rows[j].isVisible
    ensures forall j :: 0 <= j < |rows| && j != i ==> r[j] == rows[j]
  {
    rows[i := rows[i].(isExpanded := !rows[i].isExpanded)]
  }

  /** The click on a row with id `id`: the id joins the expanded set when the row
      was collapsed and leaves it when the row was expanded. */
  function ToggleId(expanded: set<string>, id: string, wasExpanded: bool): (r: set<string>)
    ensures id in r <==> !wasExpanded
    ensures forall x :: x != id ==> (x in r <==> x in expanded)
  {
    if wasExpanded then expanded - {id} else expanded + {id}
  }

  /** The tree input of a change notification, as `createDataSource` receives it:
      a forest is taken as it is, and a single node has no `map` (a TypeError). */
  function ChangedRootsAsWritten(currentValue: TreeInput): (r: Option<seq<Node>>)
    ensures r.None? <==> currentValue.Single?
    ensures r.Some? ==> r.value == currentValue.nodes
  {
    match currentValue
    case Forest(ns) => Some(ns)
    case Single(_) => None
  }

  /** The tree input as an array of roots, as initialisation normalises it; the
      change notification uses the same normalisation. */
  function Roots(t: TreeInput): (r: seq<Node>)
    ensures t.Single? ==> r == [t.node]
    ensures ChangedRootsAsWritten(t).Some? ==> r == ChangedRootsAsWritten(t).value
  {
    match t
    case Single(n) => [n]
    case Forest(ns) => ns
  }

  /** A change notification as the component reads it. */
  datatype TreeChange = TreeChange(currentValue: Option<TreeInput>, firstChange: bool)

  class TreetableComponent {
    var tree: TreeInput
    var customHeader: Option<seq<Header>>
    var actions: Option<seq<Action>>
    var options: Options
    var searchableTree: seq<SearchIndex>
    var treeTable: seq<Row>
    var displayedColumns: seq<Header>
    var extendedDisplayedColumns: seq<string>
    var dataSource: seq<Row>
    var expandedNodes: set<string>

    /** Between operations the rows are resolved against the searchable trees and
        the data source is their visible part. */
    ghost predicate Valid()
      reads this
    {
      && PathsResolved(treeTable, searchableTree)
      && Resolved(treeTable, searchableTree)
      && dataSource == VisibleRows(treeTable)
    }

    /** The component with its inputs bound and nothing built yet. */
    constructor (tree: TreeInput, customHeader: Option<seq<Header>>, actions: Option<seq<Action>>, options: Options)
      ensures Valid()
      ensures this.tree == tree && this.customHeader == customHeader
      ensures this.actions == actions && this.options == options
      ensures expandedNodes == {} && treeTable == [] && searchableTree == [] && dataSource == []
      ensures displayedColumns == [] && extendedDisplayedColumns == []
    {
      this.tree := tree;
      this.customHeader := customHeader;
      this.actions := actions;
      this.options := options;
      searchableTree := [];
      treeTable := [];
      displayedColumns := [];
      extendedDisplayedColumns := [];
      dataSource := [];
      expandedNodes := {};
    }

    /** Initialisation: normalise the tree to a forest, take the resolved options,
        refuse a custom order the validator rejects, derive the columns and
        build the data source from the converted trees. */
    method OnInit(resolved: Options, verdict: Validation, searchable: seq<SearchIndex>, rows: seq<Row>)
      returns (failure: Option<ConfigurationError>)
      requires customHeader.Some? || resolved.customColumnOrder.Some? || |Roots(tree)| > 0
      requires |searchable| == |Roots(tree)|
      requires PathsResolved(rows, searchable)
      requires Valid()
      modifies this
      ensures Valid()
      ensures failure == CustomOrderError(resolved.customColumnOrder, verdict)
      ensures tree == Forest(Roots(old(tree))) && options == resolved
      ensures customHeader == old(customHeader) && actions == old(actions) && expandedNodes == old(expandedNodes)
      ensures failure.Some? ==>
        && displayedColumns == old(displayedColumns) && extendedDisplayedColumns == old(extendedDisplayedColumns)
        && searchableTree == old(searchableTree) && treeTable == old(treeTable) && dataSource == old(dataSource)
      ensures failure.None? ==>
        && displayedColumns == DisplayedColumns(customHeader, resolved.customColumnOrder, Roots(old(tree)))
        && extendedDisplayedColumns == ExtendedColumns(displayedColumns, actions)
        && searchableTree == searchable && treeTable == Resolve(rows, searchable)
        && dataSource == VisibleRows(treeTable)
    {
      tree := Forest(Roots(tree));
      options := resolved;
      failure := CustomOrderError(options.customColumnOrder, verdict);
      if failure.Some? {
        return;
      }
      displayedColumns := DisplayedColumns(customHeader, options.customColumnOrder, tree.nodes);
      extendedDisplayedColumns := ExtendedColumns(displayedColumns, actions);
      CreateDataSource(searchable, rows);
    }

    /** A new tree after the first: rebuild from its conversion; the expanded set survives. */
    method OnChanges(change: Option<TreeChange>, searchable: seq<SearchIndex>, rows: seq<Row>)
      requires change.Some? && change.value.currentValue.Some? ==>
        |searchable| == |Roots(change.value.currentValue.value)|
      requires PathsResolved(rows, searchable)
      requires Valid()
      modifies this
      ensures Valid()
      ensures tree == old(tree) && customHeader == old(customHeader) && actions == old(actions) && options == old(options)
      ensures displayedColumns == old(displayedColumns) && extendedDisplayedColumns == old(extendedDisplayedColumns)
      ensures expandedNodes == old(expandedNodes)
      ensures if change.Some? && change.value.currentValue.Some? && !change.value.firstChange
        then searchableTree == searchable && treeTable == Resolve(rows, searchable)
        else searchableTree == old(searchableTree) && treeTable == old(treeTable)
    {
      if change.Some? && change.value.currentValue.Some? && !change.value.firstChange {
        CreateDataSource(searchable, rows);
      }
    }

    /** Install the converted searchable trees and flattened rows, resolve
        visibility and regenerate the data source. */
    method CreateDataSource(searchable: seq<SearchIndex>, rows: seq<Row>)
      requires PathsResolved(rows, searchable)
      modifies this
      ensures Valid()
      ensures searchableTree == searchable && treeTable == Resolve(rows, searchable)
      ensures dataSource == VisibleRows(treeTable)
      ensures tree == old(tree) && customHeader == old(customHeader) && actions == old(actions) && options == old(options)
      ensures displayedColumns == old(displayedColumns) && extendedDisplayedColumns == old(extendedDisplayedColumns)
      ensures expandedNodes == old(expandedNodes)
    {
      searchableTree := searchable;
      treeTable := rows;
      ShowExpandedChildren();
      ResolveIdempotent(rows, searchable);
      dataSource := VisibleRows(treeTable);
    }

    /** Recompute `isVisible` of every row, one row at a time; nothing else changes. */
    method ShowExpandedChildren()
      requires PathsResolved(treeTable, searchableTree)
      modifies this
      ensures searchableTree == old(searchableTree) && expandedNodes == old(expandedNodes) && dataSource == old(dataSource)
      ensures treeTable == Resolve(old(treeTable), searchableTree)
      ensures tree == old(tree) && customHeader == old(customHeader) && actions == old(actions) && options == old(options)
      ensures displayedColumns == old(displayedColumns) && extendedDisplayedColumns == old(extendedDisplayedColumns)
    {
      ghost var before := treeTable;
      var rows := treeTable;
      var j := 0;
      while j < |rows|
        invariant 0 <= j <= |rows|
        invariant unchanged(this)
        invariant PathsResolved(before, searchableTree)
        invariant SameSkeleton(rows, before)
        invariant forall k :: 0 <= k < |rows| ==> rows[k].depth == before[k].depth
        invariant forall k :: 0 <= k < j ==> rows[k].isVisible == VisibleIn(before, searchableTree, before[k].id)
      {
        var el := rows[j];
        assert el.id == before[j].id;
        VisibleInSameSkeleton(before, rows, searchableTree, el.id);
        rows := rows[j := el.(isVisible := VisibleIn(rows, searchableTree, el.id))];
        j := j + 1;
      }
      treeTable := rows;
    }

    /** A click on row `i`: flip its expansion and its id's membership in the
        expanded set, then resolve visibility and regenerate the data source.
        Returns the row the click notification carries. */
    method OnNodeClick(i: nat) returns (clicked: Row)
      requires Valid()
      requires i < |treeTable|
      modifies this
      ensures Valid()
      ensures expandedNodes == ToggleId(old(expandedNodes), old(treeTable)[i].id, old(treeTable)[i].isExpanded)
      ensures searchableTree == old(searchableTree)
      ensures PathsResolved(Toggle(old(treeTable), i), searchableTree)
      ensures treeTable == Resolve(Toggle(old(treeTable), i), searchableTree)
      ensures clicked == treeTable[i] && clicked.isExpanded == !old(treeTable)[i].isExpanded
      ensures tree == old(tree) && customHeader == old(customHeader) && actions == old(actions) && options == old(options)
      ensures displayedColumns == old(displayedColumns) && extendedDisplayedColumns == old(extendedDisplayedColumns)
    {
      var node := treeTable[i];
      if !node.isExpanded {
        expandedNodes := expandedNodes + {node.id};
      } else {
        expandedNodes := expandedNodes - {node.id};
      }
      ghost var toggled := Toggle(treeTable, i);
      PathsResolvedSameIds(treeTable, toggled, searchableTree);
      treeTable := treeTable[i := node.(isExpanded := !node.isExpanded)];
      assert treeTable == toggled;
      ShowExpandedChildren();
      ResolveIdempotent(toggled, searchableTree);
      dataSource := VisibleRows(treeTable);
      clicked := treeTable[i];
    }
  }

  // ----- Lemmas -----

  /** Collapsing a row (the first with its id) hides every row that has it as an
      ancestor in some searchable tree. */
  lemma CollapseHidesDescendants(rows: seq<Row>, forest: seq<SearchIndex>, i: nat, j: nat, t: nat)
    requires PathsResolved(rows, forest)
    requires i < |rows| && j < |rows| && t < |forest|
    requires rows[i].isExpanded && FindRow(rows, rows[i].id) == Some(i)
    requires rows[i].id in PathOf(forest[t], rows[j].id)
    ensures PathsResolved(Toggle(rows, i), forest)
    ensures !Resolve(Toggle(rows, i), forest)[j].isVisible
  {
    var toggled := Toggle(rows, i);
    PathsResolvedSameIds(rows, toggled, forest);
    FindRowSameIds(rows, toggled, rows[i].id);
    VisibleInIff(toggled, forest, rows[j].id);
    assert !ExpandedRow(toggled, rows[i].id);
  }

  /** A click on row `i` leaves the visibility of every row that does not have
      the clicked id among its ancestors unchanged. */
  lemma ClickSparesNonDescendants(rows: seq<Row>, forest: seq<SearchIndex>, i: nat, j: nat)
    requires PathsResolved(rows, forest)
    requires i < |rows| && j < |rows|
    requires forall t :: t in forest ==> rows[i].id !in PathOf(t, rows[j].id)
    ensures PathsResolved(Toggle(rows, i), forest)
    ensures Resolve(Toggle(rows, i), forest)[j].isVisible == Resolve(rows, forest)[j].isVisible
  {
    var toggled := Toggle(rows, i);
    var id := rows[j].id;
    PathsResolvedSameIds(rows, toggled, forest);
    assert PathsResolvedFor(rows, forest, id);
    forall t, p | t in forest && p in PathOf(t, id) ensures ExpandedRow(toggled, p) == ExpandedRow(rows, p) {
      FindRowSameIds(rows, toggled, p);
      var k := FindRow(rows, p).value;
      assert k != i;
    }
    VisibleInIff(rows, forest, id);
    VisibleInIff(toggled, forest, id);
    assert VisibleIn(toggled, forest, id) == VisibleIn(rows, forest, id);
  }

  /** Two clicks on the same row give back the rows as they were: expansion and
      every visibility flag. */
  lemma ClickTwiceRestoresRows(rows: seq<Row>, forest: seq<SearchIndex>, i: nat)
    requires PathsResolved(rows, forest) && Resolved(rows, forest)
    requires i < |rows|
    ensures PathsResolved(Toggle(rows, i), forest)
    ensures PathsResolved(Toggle(Resolve(Toggle(rows, i), forest), i), forest)
    ensures Resolve(Toggle(Resolve(Toggle(rows, i), forest), i), forest) == rows
  {
    PathsResolvedSameIds(rows, Toggle(rows, i), forest);
    var once := Resolve(Toggle(rows, i), forest);
    var back := Toggle(once, i);
    ResolveSameSkeleton(rows, back, forest);
    ResolvedIsFixpoint(rows, forest);
  }

  /** Two clicks on the same row give back the expanded set, provided the row's
      id was in the set exactly when the row was expanded. */
  lemma ClickTwiceRestoresExpandedSet(expanded: set<string>, id: string, wasExpanded: bool)
    requires id in expanded <==> wasExpanded
    ensures ToggleId(ToggleId(expanded, id, wasExpanded), id, !wasExpanded) == expanded
  {
  }

  /** The change notification as written fails on a single-node tree, which the
      tree input allows and initialisation accepts. */
  lemma SingleNodeChangeFails(n: Node)
    ensures ChangedRootsAsWritten(Single(n)) == None
    ensures Roots(Single(n)) == [n]
  {
  }

  /** The searchable tree of the chain A > B > C: each id's ancestors, parent first. */
  const ChainForest: seq<SearchIndex> := [map["A" := [], "B" := ["A"], "C" := ["B", "A"]]]

  /** The chain A > B > C flattened, every row collapsed. */
  const ChainRows: seq<Row> := [Row("A", 0, false, false), Row("B", 1, false, false), Row("C", 2, false, false)]

  /** The chain, all collapsed: only A shows; a click on A shows B, and a click
      on B then shows C. */
  lemma ChainScenario()
    ensures PathsResolved(ChainRows, ChainForest)
    ensures VisibleRows(Resolve(ChainRows, ChainForest)) == [Row("A", 0, false, true)]
    ensures PathsResolved(Toggle(Resolve(ChainRows, ChainForest), 0), ChainForest)
    ensures VisibleRows(Resolve(Toggle(Resolve(ChainRows, ChainForest), 0), ChainForest))
      == [Row("A", 0, true, true), Row("B", 1, false, true)]
    ensures PathsResolved(Toggle(Resolve(Toggle(Resolve(ChainRows, ChainForest), 0), ChainForest), 1), ChainForest)
    ensures VisibleRows(Resolve(Toggle(Resolve(Toggle(Resolve(ChainRows, ChainForest), 0), ChainForest), 1), ChainForest))
      == [Row("A", 0, true, true), Row("B", 1, true, true), Row("C", 2, false, true)]
  {
    var r1 := ChainResolve(ChainRows, false, false);
    var t1 := Toggle(r1, 0);
    ChainVisible([Row("A", 0, false, true), Row("B", 1, false, false), Row("C", 2, false, false)]);
    var r2 := ChainResolve(t1, true, false);
    ChainVisible([Row("A", 0, true, true), Row("B", 1, false, true), Row("C", 2, false, false)]);
    var t2 := Toggle(r2, 1);
    var r3 := ChainResolve(t2, true, true);
    ChainVisible([Row("A", 0, true, true), Row("B", 1, true, true), Row("C", 2, false, true)]);
  }

  /** One resolution of the chain, for given expansions of A and B (C stays collapsed). */
  lemma ChainResolve(rows: seq<Row>, a: bool, b: bool) returns (r: seq<Row>)
    requires |rows| == 3 && rows[0].id == "A" && rows[1].id == "B" && rows[2].id == "C"
    requires rows[0].depth == 0 && rows[1].depth == 1 && rows[2].depth == 2
    requires rows[0].isExpanded == a && rows[1].isExpanded == b && !rows[2].isExpanded
    ensures PathsResolved(rows, ChainForest)
    ensures r == Resolve(rows, ChainForest)
    ensures r == [Row("A", 0, a, true), Row("B", 1, b, a), Row("C", 2, false, a && b)]
  {
    assert FindRow(rows, "A") == Some(0);
    assert FindRow(rows, "B") == Some(1);
    assert PathOf(ChainForest[0], "A") == [];
    assert PathOf(ChainForest[0], "B") == ["A"];
    assert PathOf(ChainForest[0], "C") == ["B", "A"];
    assert ChainForest[1..] == [];
    assert ["B", "A"][1..] == ["A"];
    assert ["A"][1..] == [];
    assert PathsResolved(rows, ChainForest);
    assert ExpandedRow(rows, "A") == a && ExpandedRow(rows, "B") == b;
    assert AllExpanded(rows, ["A"]) == a;
    assert AllExpanded(rows, ["B", "A"]) == (b && a);
    assert VisibleIn(rows, ChainForest, "A");
    assert VisibleIn(rows, ChainForest, "B") == a;
    assert VisibleIn(rows, ChainForest, "C") == (a && b);
    r := Resolve(rows, ChainForest);
  }

  /** The data source of a resolved chain. */
  lemma ChainVisible(rows: seq<Row>)
    requires |rows| == 3
    ensures VisibleRows(rows) ==
      (if rows[0].isVisible then [rows[0]] else []) +
      (if rows[1].isVisible then [rows[1]] else []) +
      (if rows[2].isVisible then [rows[2]] else [])
  {
    var two, one := rows[..2], rows[..1];
    assert two[..1] == one && two[1] == rows[1] && one[0] == rows[0];
    assert one[..0] == [];
    assert VisibleRows(one) == if rows[0].isVisible then [rows[0]] else [];
    assert VisibleRows(two) == VisibleRows(one) + if rows[1].isVisible then [rows[1]] else [];
  }
}
