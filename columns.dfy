/** How the tree table chooses its columns at initialisation, and the error it
    raises when a custom column order does not fit the data. */
module Columns {
  import opened Types

  /** `columns.map(val => ({label: val, keyValue: val}))`. */
  function ToCustomHeader(columns: seq<string>): (r: seq<Header>)
    ensures |r| == |columns|
    ensures forall k :: 0 <= k < |r| ==> r[k].caption == r[k].keyValue
  {
    seq(|columns|, k requires 0 <= k < |columns| => Header(columns[k], columns[k]))
  }

  /** The plain column keys, `displayedColumns.map(col => col.keyValue)`. */
  function KeyValues(headers: seq<Header>): (r: seq<string>)
    ensures |r| == |headers|
  {
    seq(|headers|, k requires 0 <= k < |headers| => headers[k].keyValue)
  }

  /** The property keys of a node's value whose `typeof` is not "object", in key order. */
  function NonObjectKeys(props: seq<Property>): (r: seq<string>)
    ensures |r| <= |props|
    ensures forall x :: x in r <==>
      exists k :: 0 <= k < |props| && props[k].key == x && TypeOf(props[k].value) != "object"
  {
    if |props| == 0 then []
    else
      var rest := NonObjectKeys(props[1..]);
      assert forall k :: 1 <= k < |props| ==> props[k] == props[1..][k - 1];
      if TypeOf(props[0].value) != "object" then [props[0].key] + rest else rest
  }

  /** `Object.keys(tree.value).filter(x => typeof tree.value[x] !== 'object')`. */
  function ExtractNodeProps(node: Node): (r: seq<string>)
    ensures forall x :: x in r <==>
      exists k :: 0 <= k < |node.value| && node.value[k].key == x && TypeOf(node.value[k].value) != "object"
  {
    NonObjectKeys(node.value)
  }

  /** `Object.keys` never repeats a key. */
  ghost predicate DistinctKeys(props: seq<Property>)
  {
    forall i, j :: 0 <= i < j < |props| ==> props[i].key != props[j].key
  }

  /** The columns to display: the custom header when given, else the custom order,
      else the first root's non-object properties. A JavaScript empty array is
      truthy, so a given but empty custom header or order still wins. */
  function DisplayedColumns(customHeader: Option<seq<Header>>, customColumnOrder: Option<seq<string>>, roots: seq<Node>): (r: seq<Header>)
    requires customHeader.Some? || customColumnOrder.Some? || |roots| > 0
    ensures customHeader.Some? ==> r == customHeader.value
    ensures customHeader.None? ==> forall k :: 0 <= k < |r| ==> r[k].caption == r[k].keyValue
    ensures customHeader.None? && customColumnOrder.Some? ==> KeyValues(r) == customColumnOrder.value
    ensures customHeader.None? && customColumnOrder.None? ==> KeyValues(r) == ExtractNodeProps(roots[0])
  {
    if customHeader.Some? then customHeader.value
    else if customColumnOrder.Some? then
      KeysOfCustomHeader(customColumnOrder.value);
      ToCustomHeader(customColumnOrder.value)
    else
      KeysOfCustomHeader(ExtractNodeProps(roots[0]));
      ToCustomHeader(ExtractNodeProps(roots[0]))
  }

  /** The column keys the table renders: the displayed keys, then "actions"
      last when row actions are configured (an empty list of actions counts). */
  function ExtendedColumns(displayed: seq<Header>, actions: Option<seq<Action>>): (r: seq<string>)
    ensures |r| == |displayed| + (if actions.Some? then 1 else 0)
    ensures r[..|displayed|] == KeyValues(displayed)
    ensures actions.Some? ==> r[|r| - 1] == "actions"
  {
    if actions.Some? then KeyValues(displayed) + ["actions"] else KeyValues(displayed)
  }

  /** `'${x}'`. */
  function Quote(x: string): string
  {
    "'" + x + "'"
  }

  /** `xs.map(x => `'${x}'`).join(', ')`. */
  function QuotedList(xs: seq<string>): (r: string)
    ensures r == "" <==> |xs| == 0
    ensures |xs| > 0 ==> r[0] == '\'' && r[|r| - 1] == '\''
  {
    if |xs| == 0 then ""
    else if |xs| == 1 then Quote(xs[0])
    else Quote(xs[0]) + ", " + QuotedList(xs[1..])
  }

  const MessagePrefix: string := "\n        Properties "
  const MessageSuffix: string := " incorrect or missing in customColumnOrder"

  /** The message of the error raised for a custom order that does not fit. */
  function ErrorMessage(xor: seq<string>): (r: string)
    ensures |r| == |MessagePrefix| + |QuotedList(xor)| + |MessageSuffix|
    ensures r[..|MessagePrefix|] == MessagePrefix
    ensures r[|r| - |MessageSuffix|..] == MessageSuffix
    ensures r[|MessagePrefix|..|r| - |MessageSuffix|] == QuotedList(xor)
  {
    MessagePrefix + QuotedList(xor) + MessageSuffix
  }

  /** The error initialisation raises for a custom column order that does not fit. */
  datatype ConfigurationError = ConfigurationError(properties: seq<string>, message: string)

  /** Initialisation fails exactly when a custom order is given and the validator
      rejects it; the error names the properties the validator reported. */
  function CustomOrderError(customColumnOrder: Option<seq<string>>, verdict: Validation): (r: Option<ConfigurationError>)
    ensures r.Some? <==> customColumnOrder.Some? && !verdict.valid
    ensures r.Some? ==> r.value.properties == verdict.xor && r.value.message == ErrorMessage(verdict.xor)
  {
    if customColumnOrder.Some? && !verdict.valid then Some(ConfigurationError(verdict.xor, ErrorMessage(verdict.xor)))
    else None
  }

  /** Where the k-th quoted name starts in the joined list. */
  function QuotedOffset(xs: seq<string>, k: nat): nat
    requires k < |xs|
  {
    if k == 0 then 0 else |Quote(xs[0])| + 2 + QuotedOffset(xs[1..], k - 1)
  }

  // ----- Lemmas -----

  /** The keys of the derived header are the column names it was derived from. */
  lemma KeysOfCustomHeader(columns: seq<string>)
    ensures KeyValues(ToCustomHeader(columns)) == columns
  {
  }

  /** A property whose value is null, an object or an array is never a column. */
  lemma ObjectValuedKeyDropped(props: seq<Property>, k: nat)
    requires DistinctKeys(props)
    requires k < |props| && TypeOf(props[k].value) == "object"
    ensures props[k].key !in NonObjectKeys(props)
  {
  }

  /** When no property is object-valued, every key becomes a column, in order. */
  lemma {:induction false} AllPrimitiveKeysKept(props: seq<Property>)
    requires forall k :: 0 <= k < |props| ==> TypeOf(props[k].value) != "object"
    ensures NonObjectKeys(props) == seq(|props|, k requires 0 <= k < |props| => props[k].key)
  {
    if |props| > 0 {
      AllPrimitiveKeysKept(props[1..]);
    }
  }

  /** Filtering a concatenation filters each part in turn: the kept keys stay in
      key order. */
  lemma {:induction false} NonObjectKeysAppend(a: seq<Property>, b: seq<Property>)
    ensures NonObjectKeys(a + b) == NonObjectKeys(a) + NonObjectKeys(b)
  {
    if |a| == 0 {
      assert a + b == b;
    } else {
      assert (a + b)[0] == a[0];
      assert (a + b)[1..] == a[1..] + b;
      NonObjectKeysAppend(a[1..], b);
    }
  }

  /** Each offending property name appears, quoted, in the joined list. */
  lemma {:induction false} QuotedListNames(xs: seq<string>, k: nat)
    requires k < |xs|
    ensures QuotedOffset(xs, k) + |Quote(xs[k])| <= |QuotedList(xs)|
    ensures QuotedList(xs)[QuotedOffset(xs, k)..QuotedOffset(xs, k) + |Quote(xs[k])|] == Quote(xs[k])
  {
    if k > 0 {
      QuotedListNames(xs[1..], k - 1);
      var head := Quote(xs[0]) + ", ";
      var o := QuotedOffset(xs[1..], k - 1);
      var n := |Quote(xs[k])|;
      assert QuotedList(xs) == head + QuotedList(xs[1..]);
      assert QuotedList(xs)[|head| + o..|head| + o + n] == QuotedList(xs[1..])[o..o + n];
    }
  }

  /** The error message names each offending property, quoted. */
  lemma ErrorMessageNames(xor: seq<string>, k: nat)
    requires k < |xor|
    ensures |MessagePrefix| + QuotedOffset(xor, k) + |Quote(xor[k])| <= |ErrorMessage(xor)|
    ensures ErrorMessage(xor)[|MessagePrefix| + QuotedOffset(xor, k)..|MessagePrefix| + QuotedOffset(xor, k) + |Quote(xor[k])|] == Quote(xor[k])
  {
    QuotedListNames(xor, k);
    MiddleSlice(MessagePrefix, QuotedList(xor), MessageSuffix, QuotedOffset(xor, k), |Quote(xor[k])|);
  }

  /** A slice of the middle part of a concatenation is a slice of that part. */
  lemma MiddleSlice(a: string, b: string, c: string, o: nat, n: nat)
    requires o + n <= |b|
    ensures (a + b + c)[|a| + o..|a| + o + n] == b[o..o + n]
  {
  }
}

/** `formatIndentation`: the non-breaking spaces that indent a row by its depth. */
module Indentation {
  import opened Types

  const Nbsp: string := "&nbsp;"

  /** The default indentation step, in non-breaking spaces per level. */
  const DefaultStep: int := 5

  /** The RangeError `String.prototype.repeat` throws for a negative count. */
  datatype RangeError = InvalidCount(count: int)

  /** `s.repeat(n)`. */
  function Repeat(s: string, n: nat): (r: string)
    ensures r == "" <==> n == 0 || s == ""
    ensures forall k :: 0 <= k < |r| ==> r[k] in s
  {
    if n == 0 then "" else s + Repeat(s, n - 1)
  }

  /** `'&nbsp;'.repeat(node.depth * step)`; a negative count is a RangeError. */
  function FormatIndentation(node: Row, step: int := DefaultStep): (r: Result<string, RangeError>)
    ensures r.Err? <==> node.depth * step < 0
  {
    var count := node.depth * step;
    if count < 0 then Err(InvalidCount(count)) else Ok(Repeat(Nbsp, count))
  }

  /** "&nbsp;" repeated `n` times is `n` copies laid end to end. */
  lemma {:induction false} NbspRepeatAt(n: nat, k: nat)
    requires k < |Nbsp| * n
    ensures |Repeat(Nbsp, n)| == |Nbsp| * n
    ensures Repeat(Nbsp, n)[k] == Nbsp[k % |Nbsp|]
  {
    NbspRepeatLength(n);
    assert Repeat(Nbsp, n) == Nbsp + Repeat(Nbsp, n - 1);
    if k >= |Nbsp| {
      NbspRepeatAt(n - 1, k - |Nbsp|);
    }
  }

  lemma {:induction false} NbspRepeatLength(n: nat)
    ensures |Repeat(Nbsp, n)| == |Nbsp| * n
  {
    if n > 0 {
      NbspRepeatLength(n - 1);
    }
  }

  /** An indentation holds `depth * step` copies of "&nbsp;", and nothing else. */
  lemma IndentationShape(node: Row, step: int)
    requires node.depth * step >= 0
    ensures FormatIndentation(node, step).Ok?
    ensures |FormatIndentation(node, step).value| == |Nbsp| * (node.depth * step)
    ensures forall k :: 0 <= k < |FormatIndentation(node, step).value| ==>
      FormatIndentation(node, step).value[k] == Nbsp[k % |Nbsp|]
    ensures FormatIndentation(node).Ok? && |FormatIndentation(node).value| == |Nbsp| * DefaultStep * node.depth
  {
    var count: nat := node.depth * step;
    NbspRepeatLength(count);
    NbspRepeatLength(node.depth * DefaultStep);
    forall k | 0 <= k < |Repeat(Nbsp, count)| ensures Repeat(Nbsp, count)[k] == Nbsp[k % |Nbsp|] {
      NbspRepeatAt(count, k);
    }
  }
}
