/** The visibility resolver of the tree table: a row is shown exactly when every
    ancestor on its path to the root is a row that is expanded, and the data
    source is the shown rows in their original order. */
module Visibility {
  import opened Types

  /** Some row of the table carries `id`. */
  ghost predicate HasRow(rows: seq<Row>, id: string)
  {
    exists k :: 0 <= k < |rows| && rows[k].id == id
  }

  /** `rows.find(x => x.id === id)`, as the index of the first row with that id. */
  function FindRow(rows: seq<Row>, id: string): (r: Option<nat>)
    ensures r.Some? ==> r.value < |rows| && rows[r.value].id == id
    ensures r.Some? ==> forall k :: 0 <= k < r.value ==> rows[k].id != id
    ensures r.None? <==> !HasRow(rows, id)
  {
    if |rows| == 0 then None
    else if rows[0].id == id then Some(0)
    else
      match FindRow(rows[1..], id)
      case None =>
        assert forall k :: 1 <= k < |rows| ==> rows[k] == rows[1..][k - 1];
        None
      case Some(k) => Some(k + 1)
  }

  /** `rows.find(x => x.id === id).isExpanded`. */
  function ExpandedRow(rows: seq<Row>, id: string): (r: bool)
    requires HasRow(rows, id)
  {
    rows[FindRow(rows, id).value].isExpanded
  }

  /** `searchById(tree, id).fold([], n => n.pathToRoot)`: the ancestor ids of `id`
      in one searchable root tree, and none when the search misses. */
  function PathOf(tree: SearchIndex, id: string): (r: seq<string>)
    ensures id !in tree ==> r == []
  {
    if id in tree then tree[id] else []
  }

  /** Every ancestor id the resolver looks up for `id` names a row. */
  ghost predicate PathsResolvedFor(rows: seq<Row>, forest: seq<SearchIndex>, id: string)
  {
    forall t, p :: t in forest && p in PathOf(t, id) ==> HasRow(rows, p)
  }

  /** What the resolver assumes of the whole table: the lookup of every ancestor
      of every row finds a row. */
  ghost predicate PathsResolved(rows: seq<Row>, forest: seq<SearchIndex>)
  {
    forall j :: 0 <= j < |rows| ==> PathsResolvedFor(rows, forest, rows[j].id)
  }

  /** `path.every(p => find(p).isExpanded)`, evaluated left to right. */
  function AllExpanded(rows: seq<Row>, path: seq<string>): (r: bool)
    requires forall p :: p in path ==> HasRow(rows, p)
    ensures r <==> forall k :: 0 <= k < |path| ==> ExpandedRow(rows, path[k])
  {
    if |path| == 0 then true
    else
      assert forall k :: 1 <= k < |path| ==> path[k] == path[1..][k - 1];
      ExpandedRow(rows, path[0]) && AllExpanded(rows, path[1..])
  }

  /** `forest.every(st => AllExpanded(rows, PathOf(st, id)))`: the visibility of the row `id`. */
  function VisibleIn(rows: seq<Row>, forest: seq<SearchIndex>, id: string): (r: bool)
    requires PathsResolvedFor(rows, forest, id)
    ensures |forest| == 0 ==> r
  {
    if |forest| == 0 then true
    else
      assert forall t :: t in forest[1..] ==> t in forest;
      assert forall k :: 1 <= k < |forest| ==> forest[k] == forest[1..][k - 1];
      AllExpanded(rows, PathOf(forest[0], id)) && VisibleIn(rows, forest[1..], id)
  }

  /** The table after the resolver ran: every row's `isVisible` recomputed, all else kept. */
  function Resolve(rows: seq<Row>, forest: seq<SearchIndex>): (r: seq<Row>)
    requires PathsResolved(rows, forest)
    ensures |r| == |rows|
    ensures forall j :: 0 <= j < |rows| ==>
      r[j].id == rows[j].id && r[j].depth == rows[j].depth && r[j].isExpanded == rows[j].isExpanded
    ensures forall j :: 0 <= j < |rows| ==> r[j].isVisible == VisibleIn(rows, forest, rows[j].id)
  {
    seq(|rows|, j requires 0 <= j < |rows| => rows[j].(isVisible := VisibleIn(rows, forest, rows[j].id)))
  }

  /** Every row's `isVisible` agrees with what the resolver computes for it. */
  ghost predicate Resolved(rows: seq<Row>, forest: seq<SearchIndex>)
    requires PathsResolved(rows, forest)
  {
    forall j :: 0 <= j < |rows| ==> rows[j].isVisible == VisibleIn(rows, forest, rows[j].id)
  }

  /** Two tables with the same ids, row by row. */
  ghost predicate SameIds(a: seq<Row>, b: seq<Row>)
  {
    |a| == |b| && forall k :: 0 <= k < |a| ==> a[k].id == b[k].id
  }

  /** Two tables that agree on everything the resolver reads: ids and expansion. */
  ghost predicate SameSkeleton(a: seq<Row>, b: seq<Row>)
  {
    SameIds(a, b) && forall k :: 0 <= k < |a| ==> a[k].isExpanded == b[k].isExpanded
  }

  /** The shown rows, `rows.filter(x => x.isVisible)`. */
  function VisibleRows(rows: seq<Row>): (r: seq<Row>)
    ensures |r| <= |rows|
    ensures forall k :: 0 <= k < |r| ==> r[k].isVisible
  {
    if |rows| == 0 then []
    else VisibleRows(rows[..|rows| - 1]) + (if rows[|rows| - 1].isVisible then [rows[|rows| - 1]] else [])
  }

  /** The positions of the shown rows, ascending. */
  function VisibleIndices(rows: seq<Row>): (r: seq<nat>)
    ensures forall k :: 0 <= k < |r| ==> r[k] < |rows| && rows[r[k]].isVisible
    ensures forall k, l :: 0 <= k < l < |r| ==> r[k] < r[l]
    ensures forall j :: 0 <= j < |rows| && rows[j].isVisible ==> j in r
  {
    if |rows| == 0 then []
    else
      var front := rows[..|rows| - 1];
      assert forall j :: 0 <= j < |front| ==> front[j] == rows[j];
      VisibleIndices(front) + (if rows[|rows| - 1].isVisible then [|rows| - 1] else [])
  }

  // ----- Lemmas -----

  /** The lookup depends on the ids alone. */
  lemma FindRowSameIds(a: seq<Row>, b: seq<Row>, id: string)
    requires SameIds(a, b)
    ensures FindRow(a, id) == FindRow(b, id)
    ensures HasRow(a, id) <==> HasRow(b, id)
  {
  }

  /** The expansion the resolver reads for `id` is that of the first row with that id. */
  lemma ExpandedRowFirst(rows: seq<Row>, id: string, k: nat)
    requires k < |rows| && rows[k].id == id
    requires forall j :: 0 <= j < k ==> rows[j].id != id
    ensures HasRow(rows, id)
    ensures ExpandedRow(rows, id) == rows[k].isExpanded
  {
  }

  /** `every` over one path: true iff each ancestor's row is expanded. */
  lemma AllExpandedIff(rows: seq<Row>, path: seq<string>)
    requires forall p :: p in path ==> HasRow(rows, p)
    ensures AllExpanded(rows, path) <==> forall p :: p in path ==> ExpandedRow(rows, p)
  {
  }

  /** The resolver's verdict: a row is visible iff, in every searchable root tree,
      every ancestor on its path to the root is an expanded row. */
  lemma {:induction false} VisibleInIff(rows: seq<Row>, forest: seq<SearchIndex>, id: string)
    requires PathsResolvedFor(rows, forest, id)
    ensures VisibleIn(rows, forest, id) <==>
      forall t, p :: t in forest && p in PathOf(t, id) ==> ExpandedRow(rows, p)
  {
    if |forest| > 0 {
      assert forall t :: t in forest[1..] ==> t in forest;
      VisibleInIff(rows, forest[1..], id);
      AllExpandedIff(rows, PathOf(forest[0], id));
      assert forall t :: t in forest <==> t == forest[0] || t in forest[1..];
    }
  }

  /** A row with no ancestors in any searchable tree (a root, or an id every
      search misses) is always visible. */
  lemma RootAlwaysVisible(rows: seq<Row>, forest: seq<SearchIndex>, id: string)
    requires forall t :: t in forest ==> PathOf(t, id) == []
    ensures PathsResolvedFor(rows, forest, id)
    ensures VisibleIn(rows, forest, id)
  {
  }

  /** A searchable tree in which the search misses adds nothing to the verdict. */
  lemma {:induction false} MissingTreeIrrelevant(rows: seq<Row>, forest: seq<SearchIndex>, k: nat, t: SearchIndex, id: string)
    requires k <= |forest|
    requires PathOf(t, id) == []
    requires PathsResolvedFor(rows, forest, id)
    ensures PathsResolvedFor(rows, forest[..k] + [t] + forest[k..], id)
    ensures VisibleIn(rows, forest[..k] + [t] + forest[k..], id) == VisibleIn(rows, forest, id)
  {
    var longer := forest[..k] + [t] + forest[k..];
    assert forall u :: u in longer ==> u in forest || u == t;
    assert forall u :: u in forest ==> u in longer by {
      forall u | u in forest ensures u in longer {
        var j :| 0 <= j < |forest| && forest[j] == u;
        if j < k { assert longer[j] == u; } else { assert longer[j + 1] == u; }
      }
    }
    VisibleInIff(rows, forest, id);
    VisibleInIff(rows, longer, id);
  }

  /** The verdict depends only on ids and expansion, never on the old `isVisible`. */
  lemma VisibleInSameSkeleton(a: seq<Row>, b: seq<Row>, forest: seq<SearchIndex>, id: string)
    requires SameSkeleton(a, b)
    requires PathsResolvedFor(a, forest, id)
    ensures PathsResolvedFor(b, forest, id)
    ensures VisibleIn(a, forest, id) == VisibleIn(b, forest, id)
  {
    forall p ensures HasRow(a, p) <==> HasRow(b, p) {
      FindRowSameIds(a, b, p);
    }
    forall p | HasRow(a, p) ensures ExpandedRow(a, p) == ExpandedRow(b, p) {
      FindRowSameIds(a, b, p);
    }
    VisibleInIff(a, forest, id);
    VisibleInIff(b, forest, id);
  }

  /** The ancestor lookups depend only on the ids. */
  lemma PathsResolvedSameIds(a: seq<Row>, b: seq<Row>, forest: seq<SearchIndex>)
    requires SameIds(a, b)
    requires PathsResolved(a, forest)
    ensures PathsResolved(b, forest)
  {
    forall p ensures HasRow(a, p) <==> HasRow(b, p) {
      FindRowSameIds(a, b, p);
    }
  }

  /** Tables that agree on ids, depths and expansion resolve to the same table. */
  lemma ResolveSameSkeleton(a: seq<Row>, b: seq<Row>, forest: seq<SearchIndex>)
    requires SameSkeleton(a, b)
    requires forall k :: 0 <= k < |a| ==> a[k].depth == b[k].depth
    requires PathsResolved(a, forest)
    ensures PathsResolved(b, forest)
    ensures Resolve(a, forest) == Resolve(b, forest)
  {
    PathsResolvedSameIds(a, b, forest);
    forall j | 0 <= j < |a| ensures Resolve(a, forest)[j] == Resolve(b, forest)[j] {
      VisibleInSameSkeleton(a, b, forest, a[j].id);
    }
  }

  /** The resolver leaves a resolved table, and running it again changes nothing. */
  lemma ResolveIdempotent(rows: seq<Row>, forest: seq<SearchIndex>)
    requires PathsResolved(rows, forest)
    ensures PathsResolved(Resolve(rows, forest), forest)
    ensures Resolved(Resolve(rows, forest), forest)
    ensures Resolve(Resolve(rows, forest), forest) == Resolve(rows, forest)
  {
    var r := Resolve(rows, forest);
    ResolveSameSkeleton(rows, r, forest);
    forall j | 0 <= j < |r| ensures r[j].isVisible == VisibleIn(r, forest, r[j].id) {
      VisibleInSameSkeleton(rows, r, forest, rows[j].id);
    }
  }

  /** A resolved table is a fixed point of the resolver. */
  lemma ResolvedIsFixpoint(rows: seq<Row>, forest: seq<SearchIndex>)
    requires PathsResolved(rows, forest)
    requires Resolved(rows, forest)
    ensures Resolve(rows, forest) == rows
  {
  }

  /** The data source is exactly the visible rows, in the order of the table. */
  lemma {:induction false} VisibleRowsAt(rows: seq<Row>)
    ensures |VisibleRows(rows)| == |VisibleIndices(rows)|
    ensures forall k :: 0 <= k < |VisibleRows(rows)| ==> VisibleRows(rows)[k] == rows[VisibleIndices(rows)[k]]
  {
    if |rows| > 0 {
      var front := rows[..|rows| - 1];
      VisibleRowsAt(front);
      assert forall j :: 0 <= j < |front| ==> front[j] == rows[j];
    }
  }
}
