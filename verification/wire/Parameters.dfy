// parameter_t: the nested values that cross the handler boundary.
//
// `Value` is a parameter as the writer sees it: an unordered_map appears as the sequence of
// entries its iteration yields, in whatever order that is. `Param` is the same parameter with
// the order forgotten. `Forget` goes from one to the other, so "for every iteration order" is
// "for every Value that forgets to this Param".
module Parameters {
  import opened ByteOrder

  datatype Value =
    | Text(text: bytes)
    | I64(i: int64)
    | U64(u: uint64)
    | Bool(b: bool)
    | List(items: seq<Value>)
    | Map(entries: seq<Entry>)

  datatype Entry = Entry(key: bytes, value: Value)

  datatype Param =
    | PText(text: bytes)
    | PI64(i: int64)
    | PU64(u: uint64)
    | PBool(b: bool)
    | PList(items: seq<Param>)
    | PMap(fields: map<bytes, Param>)

  // ----- what the containers guarantee: sizes fit size_t, map keys are distinct -----

  function KeysOf(es: seq<Entry>): set<bytes>
  {
    if es == [] then {} else {es[0].key} + KeysOf(es[1..])
  }

  lemma {:induction false} KeysOfSnoc(es: seq<Entry>, e: Entry)
    ensures KeysOf(es + [e]) == KeysOf(es) + {e.key}
  {
    if es == [] {
      assert es + [e] == [e];
    } else {
      assert (es + [e])[1..] == es[1..] + [e];
      KeysOfSnoc(es[1..], e);
    }
  }

  ghost predicate WellFormed(v: Value)
    decreases v, 1
  {
    match v
    case Text(s) => |s| < TWO_64
    case List(items) => |items| < TWO_64 && WellFormedItems(items)
    case Map(entries) => |entries| < TWO_64 && WellFormedEntries(entries)
    case _ => true
  }

  ghost predicate WellFormedItems(items: seq<Value>)
    decreases items, 0
  {
    items == [] || (WellFormed(items[0]) && WellFormedItems(items[1..]))
  }

  ghost predicate WellFormedEntries(es: seq<Entry>)
    decreases es, 0
  {
    es == [] ||
    (|es[0].key| < TWO_64 && WellFormed(es[0].value) && es[0].key !in KeysOf(es[1..]) && WellFormedEntries(es[1..]))
  }

  // ----- forgetting the iteration order -----

  function Forget(v: Value): Param
    decreases v, 1
  {
    match v
    case Text(s) => PText(s)
    case I64(i) => PI64(i)
    case U64(u) => PU64(u)
    case Bool(b) => PBool(b)
    case List(items) => PList(ForgetItems(items))
    case Map(entries) => PMap(ForgetEntries(entries))
  }

  function ForgetItems(items: seq<Value>): (ps: seq<Param>)
    ensures |ps| == |items|
    decreases items, 0
  {
    if items == [] then [] else [Forget(items[0])] + ForgetItems(items[1..])
  }

  function ForgetEntries(es: seq<Entry>): (m: map<bytes, Param>)
    ensures m.Keys == KeysOf(es)
    decreases es, 0
  {
    if es == [] then map[]
    else
      ForgetEntries(es[1..])[es[0].key := Forget(es[0].value)]
  }

  /** `v` is one of the orders in which the containers inside `p` may be iterated. */
  ghost predicate IterationOf(v: Value, p: Param)
  {
    WellFormed(v) && Forget(v) == p
  }

  // ----- every parameter whose sizes fit has an iteration order, and no other has -----

  /** All texts, keys, lists and maps inside have sizes that fit size_t. */
  ghost predicate SizesFit(p: Param)
  {
    match p
    case PText(s) => |s| < TWO_64
    case PList(items) => |items| < TWO_64 && forall i :: 0 <= i < |items| ==> SizesFit(items[i])
    case PMap(fields) =>
      |fields| < TWO_64 && forall k :: k in fields ==> |k| < TWO_64 && SizesFit(fields[k])
    case _ => true
  }

  lemma {:induction false} KeysCount(es: seq<Entry>)
    requires WellFormedEntries(es)
    ensures |KeysOf(es)| == |es|
  {
    if es != [] {
      KeysCount(es[1..]);
    }
  }

  lemma {:induction false} Iterate(p: Param) returns (v: Value)
    requires SizesFit(p)
    ensures IterationOf(v, p)
    decreases p, 1
  {
    match p
    case PText(s) => v := Text(s);
    case PI64(i) => v := I64(i);
    case PU64(u) => v := U64(u);
    case PBool(b) => v := Bool(b);
    case PList(items) =>
      var all := IterateItems(p, |items|);
      assert items[..|items|] == items;
      v := List(all);
    case PMap(fields) =>
      var es := IterateFields(p, fields.Keys);
      KeysCount(es);
      assert |fields.Keys| == |fields|;
      assert ForgetEntries(es) == fields;
      v := Map(es);
  }

  /** The first `n` items of a list. */
  lemma {:induction false} IterateItems(p: Param, n: nat) returns (r: seq<Value>)
    requires p.PList? && SizesFit(p) && n <= |p.items|
    ensures |r| == n && WellFormedItems(r) && ForgetItems(r) == p.items[..n]
    decreases p, 0, n
  {
    if n == 0 {
      return [];
    }
    var front := IterateItems(p, n - 1);
    var last := Iterate(p.items[n - 1]);
    ItemsSnoc(front, last);
    assert p.items[..n] == p.items[..n - 1] + [p.items[n - 1]];
    r := front + [last];
  }

  lemma {:induction false} ItemsSnoc(items: seq<Value>, v: Value)
    requires WellFormedItems(items) && WellFormed(v)
    ensures WellFormedItems(items + [v]) && ForgetItems(items + [v]) == ForgetItems(items) + [Forget(v)]
    decreases |items|
  {
    if items == [] {
      assert items + [v] == [v];
      assert [v][1..] == [];
    } else {
      assert (items + [v])[1..] == items[1..] + [v];
      ItemsSnoc(items[1..], v);
    }
  }

  /** Some of the fields of a map, in an order of the lemma's own choosing. */
  lemma {:induction false} IterateFields(p: Param, keys: set<bytes>) returns (es: seq<Entry>)
    requires p.PMap? && SizesFit(p) && keys <= p.fields.Keys
    ensures WellFormedEntries(es) && KeysOf(es) == keys
    ensures forall k :: k in keys ==> ForgetEntries(es)[k] == p.fields[k]
    decreases p, 0, |keys|
  {
    if keys == {} {
      return [];
    }
    var k :| k in keys;
    var rest := IterateFields(p, keys - {k});
    var v := Iterate(p.fields[k]);
    es := [Entry(k, v)] + rest;
    assert es[1..] == rest;
  }

  lemma {:induction false} IteratedFits(v: Value)
    requires WellFormed(v)
    ensures SizesFit(Forget(v))
    decreases v, 1
  {
    match v
    case List(items) =>
      IteratedItemsFit(items);
    case Map(entries) =>
      KeysCount(entries);
      IteratedEntriesFit(entries);
      assert |ForgetEntries(entries)| == |ForgetEntries(entries).Keys|;
    case _ =>
  }

  lemma {:induction false} IteratedItemsFit(items: seq<Value>)
    requires WellFormedItems(items)
    ensures forall i :: 0 <= i < |items| ==> SizesFit(ForgetItems(items)[i])
    decreases items, 0
  {
    if items != [] {
      IteratedFits(items[0]);
      IteratedItemsFit(items[1..]);
    }
  }

  lemma {:induction false} IteratedEntriesFit(es: seq<Entry>)
    requires WellFormedEntries(es)
    ensures forall k :: k in ForgetEntries(es) ==> |k| < TWO_64 && SizesFit(ForgetEntries(es)[k])
    decreases es, 0
  {
    if es != [] {
      IteratedFits(es[0].value);
      IteratedEntriesFit(es[1..]);
    }
  }

  /** A parameter has an iteration order exactly when all sizes inside it fit. */
  lemma HasIteration(p: Param)
    ensures (exists v :: IterationOf(v, p)) <==> SizesFit(p)
  {
    if SizesFit(p) {
      var v := Iterate(p);
    }
    if v :| IterationOf(v, p) {
      IteratedFits(v);
    }
  }

  // ----- what the wire preserves: everything but the unsigned alternative -----

  function Norm(v: Value): Value
    decreases v, 1
  {
    match v
    case U64(u) => I64(ToInt64(u))
    case List(items) => List(NormItems(items))
    case Map(entries) => Map(NormEntries(entries))
    case _ => v
  }

  function NormItems(items: seq<Value>): (r: seq<Value>)
    ensures |r| == |items|
    decreases items, 0
  {
    if items == [] then [] else [Norm(items[0])] + NormItems(items[1..])
  }

  function NormEntries(es: seq<Entry>): (r: seq<Entry>)
    ensures |r| == |es| && KeysOf(r) == KeysOf(es)
    decreases es, 0
  {
    if es == [] then []
    else
      var r := [Entry(es[0].key, Norm(es[0].value))] + NormEntries(es[1..]);
      assert r[1..] == NormEntries(es[1..]);
      r
  }

  function NormParam(p: Param): Param
  {
    match p
    case PU64(u) => PI64(ToInt64(u))
    case PList(items) => PList(seq(|items|, i requires 0 <= i < |items| => NormParam(items[i])))
    case PMap(fields) => PMap(map k | k in fields :: NormParam(fields[k]))
    case _ => p
  }

  function NormFields(m: map<bytes, Param>): map<bytes, Param>
  {
    map k | k in m :: NormParam(m[k])
  }

  /** Normalising and forgetting commute: the order never influences what a map means. */
  lemma {:induction false} ForgetNorm(v: Value)
    ensures Forget(Norm(v)) == NormParam(Forget(v))
    decreases v, 1
  {
    match v
    case List(items) =>
      ForgetNormItems(items);
    case Map(entries) =>
      ForgetNormEntries(entries);
    case _ =>
  }

  lemma {:induction false} ForgetNormItems(items: seq<Value>)
    ensures forall i :: 0 <= i < |items| ==> ForgetItems(NormItems(items))[i] == NormParam(ForgetItems(items)[i])
    decreases items, 0
  {
    hide Norm, Forget, NormParam;
    if items != [] {
      ForgetNorm(items[0]);
      ForgetNormItems(items[1..]);
      assert NormItems(items) == [Norm(items[0])] + NormItems(items[1..]);
      assert NormItems(items)[1..] == NormItems(items[1..]);
      assert ForgetItems(NormItems(items)) == [Forget(Norm(items[0]))] + ForgetItems(NormItems(items[1..]));
    }
  }

  lemma {:induction false} ForgetNormEntries(es: seq<Entry>)
    ensures ForgetEntries(NormEntries(es)) == NormFields(ForgetEntries(es))
    decreases es, 0
  {
    if es != [] {
      ForgetNorm(es[0].value);
      ForgetNormEntries(es[1..]);
      assert NormEntries(es)[1..] == NormEntries(es[1..]);
    }
  }

  lemma {:induction false} NormWellFormed(v: Value)
    requires WellFormed(v)
    ensures WellFormed(Norm(v)) && Norm(Norm(v)) == Norm(v)
    decreases v, 1
  {
    match v
    case List(items) =>
      NormItemsWellFormed(items);
    case Map(entries) =>
      NormEntriesWellFormed(entries);
    case _ =>
  }

  lemma {:induction false} NormItemsWellFormed(items: seq<Value>)
    requires WellFormedItems(items)
    ensures WellFormedItems(NormItems(items)) && NormItems(NormItems(items)) == NormItems(items)
    decreases items, 0
  {
    if items != [] {
      NormWellFormed(items[0]);
      NormItemsWellFormed(items[1..]);
      assert NormItems(items)[1..] == NormItems(items[1..]);
    }
  }

  lemma {:induction false} NormEntriesWellFormed(es: seq<Entry>)
    requires WellFormedEntries(es)
    ensures WellFormedEntries(NormEntries(es)) && NormEntries(NormEntries(es)) == NormEntries(es)
    decreases es, 0
  {
    if es != [] {
      NormWellFormed(es[0].value);
      NormEntriesWellFormed(es[1..]);
      assert NormEntries(es)[1..] == NormEntries(es[1..]);
    }
  }
}
