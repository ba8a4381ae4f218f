// Bounds for encoded sizes that hold for every iteration order of the maps inside.
module EncodedSize {
  import opened ByteOrder
  import opened Parameters
  import opened Grammar

  // ----- scalars -----

  lemma WidthBound(v: nat)
    ensures v < 0x100 ==> Width(v) == 1
    ensures v < 0x1_0000 ==> Width(v) <= 2
  {
    Pow256Values();
  }

  lemma NumberSize(u: Value, i: int64)
    requires IterationOf(u, PI64(i))
    ensures -0x100 < i < 0x100 ==> |Enc(u)| == 2
    ensures -0x1_0000 < i < 0x1_0000 ==> |Enc(u)| <= 3
  {
    var j: int := i;
    WidthBound(if j >= 0 then j else -j);
    hide Width;
  }

  lemma BoolSize(u: Value, b: bool)
    requires IterationOf(u, PBool(b))
    ensures |Enc(u)| == 2
  {
  }

  lemma TextSize(s: bytes)
    ensures |s| < 0x100 ==> |EncText(s)| == 2 + |s|
    ensures |s| < 0x1_0000 ==> |EncText(s)| <= 3 + |s|
  {
    WidthBound(|s|);
    hide Width;
  }

  lemma TextValueSize(u: Value, s: bytes)
    requires IterationOf(u, PText(s))
    ensures |s| < 0x100 ==> |Enc(u)| == 2 + |s|
    ensures |s| < 0x1_0000 ==> |Enc(u)| <= 3 + |s|
  {
    TextSize(s);
  }

  lemma CountSize(n: nat)
    ensures n < 0x100 ==> |EncNumber(n)| == 2
    ensures n < 0x1_0000 ==> |EncNumber(n)| <= 3
  {
    WidthBound(n);
    hide Width;
  }

  // ----- lists -----

  /** No item takes more than `each`, however the maps inside it are iterated. */
  ghost predicate AllWithin(ps: seq<Param>, each: nat)
  {
    forall i, u :: 0 <= i < |ps| && IterationOf(u, ps[i]) ==> |Enc(u)| <= each
  }

  lemma WithinRest(ps: seq<Param>, each: nat)
    requires ps != [] && AllWithin(ps, each)
    ensures AllWithin(ps[1..], each)
  {
    hide Enc, IterationOf;
    forall i, u | 0 <= i < |ps[1..]| && IterationOf(u, ps[1..][i])
      ensures |Enc(u)| <= each
    {
      assert ps[1..][i] == ps[i + 1];
    }
  }

  lemma {:induction false} ItemsSize(items: seq<Value>, ps: seq<Param>, each: nat)
    requires WellFormedItems(items) && ForgetItems(items) == ps && AllWithin(ps, each)
    ensures |EncItems(items)| <= each * |ps|
  {
    hide Enc, WellFormed, Forget;
    if items != [] {
      assert IterationOf(items[0], ps[0]);
      assert |Enc(items[0])| <= each;
      assert ForgetItems(items[1..]) == ps[1..];
      WithinRest(ps, each);
      hide AllWithin;
      ItemsSize(items[1..], ps[1..], each);
      OneMore(each, |ps|);
    }
  }

  lemma OneMore(each: nat, n: nat)
    requires n > 0
    ensures each + each * (n - 1) == each * n
  {
  }

  lemma ListSize(u: Value, ps: seq<Param>, each: nat)
    requires IterationOf(u, PList(ps)) && |ps| < 0x1_0000 && AllWithin(ps, each)
    ensures |Enc(u)| <= 4 + each * |ps|
  {
    hide EncItems, EncNumber, ForgetItems, AllWithin;
    CountSize(|ps|);
    ItemsSize(u.items, ps, each);
  }

  // ----- maps -----

  /** How much a key and its value may take. */
  datatype Slot = Slot(key: bytes, room: nat)

  function Total(slots: seq<Slot>): nat
  {
    if slots == [] then 0 else slots[0].room + Total(slots[1..])
  }

  /** The room of the slots whose keys are in use. */
  function Cost(slots: seq<Slot>, keys: set<bytes>): nat
  {
    if slots == [] then 0 else (if slots[0].key in keys then slots[0].room else 0) + Cost(slots[1..], keys)
  }

  lemma {:induction false} CostBelow(slots: seq<Slot>, keys: set<bytes>, more: set<bytes>)
    requires keys <= more
    ensures Cost(slots, keys) <= Cost(slots, more) <= Total(slots)
  {
    if slots != [] {
      CostBelow(slots[1..], keys, more);
    }
  }

  lemma {:induction false} CostAdd(slots: seq<Slot>, i: nat, keys: set<bytes>)
    requires i < |slots| && slots[i].key !in keys
    ensures Cost(slots, {slots[i].key} + keys) >= slots[i].room + Cost(slots, keys)
  {
    if i == 0 {
      CostBelow(slots[1..], keys, {slots[0].key} + keys);
    } else {
      CostAdd(slots[1..], i - 1, keys);
    }
  }

  ghost predicate HasRoom(slots: seq<Slot>, key: bytes, size: nat)
  {
    exists i :: 0 <= i < |slots| && slots[i].key == key && size <= slots[i].room
  }

  /** Every field has a slot with enough room, however the maps inside it are iterated. */
  ghost predicate Roomy(slots: seq<Slot>, fields: map<bytes, Param>)
  {
    forall k, u :: k in fields && IterationOf(u, fields[k]) ==> HasRoom(slots, k, |EncText(k)| + |Enc(u)|)
  }

  lemma {:induction false} EntriesSize(es: seq<Entry>, slots: seq<Slot>)
    requires WellFormedEntries(es) && Roomy(slots, ForgetEntries(es))
    ensures |EncEntries(es)| <= Cost(slots, KeysOf(es))
  {
    hide Enc, EncText, Cost, WellFormed, Forget;
    if es != [] {
      var e, rest := es[0], es[1..];
      assert ForgetEntries(es) == ForgetEntries(rest)[e.key := Forget(e.value)];
      assert IterationOf(e.value, ForgetEntries(es)[e.key]);
      assert HasRoom(slots, e.key, |EncText(e.key)| + |Enc(e.value)|);
      var i :| 0 <= i < |slots| && slots[i].key == e.key && |EncText(e.key)| + |Enc(e.value)| <= slots[i].room;
      RoomyRest(slots, ForgetEntries(rest), e.key, Forget(e.value));
      EntriesSize(rest, slots);
      CostAdd(slots, i, KeysOf(rest));
    }
  }

  lemma RoomyRest(slots: seq<Slot>, fields: map<bytes, Param>, k: bytes, p: Param)
    requires k !in fields && Roomy(slots, fields[k := p])
    ensures Roomy(slots, fields)
  {
    hide Enc, EncText, IterationOf, HasRoom;
    forall j, u | j in fields && IterationOf(u, fields[j])
      ensures HasRoom(slots, j, |EncText(j)| + |Enc(u)|)
    {
      assert fields[k := p][j] == fields[j];
    }
  }

  lemma MapSize(v: Value, fields: map<bytes, Param>, slots: seq<Slot>)
    requires IterationOf(v, PMap(fields)) && |fields| < 0x100 && Roomy(slots, fields)
    ensures |Enc(v)| <= 3 + Total(slots)
  {
    hide EncEntries, EncNumber, Roomy, ForgetEntries, KeysOf, Total, Cost, WellFormedEntries;
    KeysCount(v.entries);
    assert fields.Keys == KeysOf(v.entries);
    CountSize(|v.entries|);
    EntriesSize(v.entries, slots);
    CostBelow(slots, KeysOf(v.entries), KeysOf(v.entries));
  }

  // ----- bounds from below -----

  lemma {:induction false} CostWithout(slots: seq<Slot>, k: bytes, keys: set<bytes>)
    requires forall i :: 0 <= i < |slots| ==> slots[i].key != k
    ensures Cost(slots, {k} + keys) == Cost(slots, keys)
  {
    if slots != [] {
      CostWithout(slots[1..], k, keys);
    }
  }

  predicate DistinctSlots(slots: seq<Slot>)
  {
    forall i, j :: 0 <= i < j < |slots| ==> slots[i].key != slots[j].key
  }

  lemma {:induction false} CostAddAtMost(slots: seq<Slot>, k: bytes, keys: set<bytes>, n: nat)
    requires DistinctSlots(slots) && forall i :: 0 <= i < |slots| && slots[i].key == k ==> slots[i].room <= n
    ensures Cost(slots, {k} + keys) <= n + Cost(slots, keys)
  {
    if slots != [] {
      if slots[0].key == k {
        CostWithout(slots[1..], k, keys);
      } else {
        CostAddAtMost(slots[1..], k, keys, n);
      }
    }
  }

  lemma {:induction false} CostAll(slots: seq<Slot>, keys: set<bytes>)
    requires forall i :: 0 <= i < |slots| ==> slots[i].key in keys
    ensures Cost(slots, keys) == Total(slots)
  {
    if slots != [] {
      CostAll(slots[1..], keys);
    }
  }

  /** No field with a slot takes less than the slot says. */
  ghost predicate Filling(slots: seq<Slot>, fields: map<bytes, Param>)
  {
    forall i, u :: 0 <= i < |slots| && slots[i].key in fields && IterationOf(u, fields[slots[i].key])
      ==> slots[i].room <= |EncText(slots[i].key)| + |Enc(u)|
  }

  lemma FillingRest(slots: seq<Slot>, fields: map<bytes, Param>, k: bytes, p: Param)
    requires k !in fields && Filling(slots, fields[k := p])
    ensures Filling(slots, fields)
  {
    hide Enc, EncText, IterationOf;
    forall i, u | 0 <= i < |slots| && slots[i].key in fields && IterationOf(u, fields[slots[i].key])
      ensures slots[i].room <= |EncText(slots[i].key)| + |Enc(u)|
    {
      assert fields[k := p][slots[i].key] == fields[slots[i].key];
    }
  }

  lemma {:induction false} EntriesAtLeast(es: seq<Entry>, slots: seq<Slot>)
    requires WellFormedEntries(es) && DistinctSlots(slots) && Filling(slots, ForgetEntries(es))
    ensures |EncEntries(es)| >= Cost(slots, KeysOf(es))
  {
    hide Enc, EncText, Cost, WellFormed, Forget;
    if es == [] {
      CostNothing(slots);
    } else {
      var e, rest := es[0], es[1..];
      assert ForgetEntries(es) == ForgetEntries(rest)[e.key := Forget(e.value)];
      assert IterationOf(e.value, ForgetEntries(es)[e.key]);
      var n := |EncText(e.key)| + |Enc(e.value)|;
      forall i | 0 <= i < |slots| && slots[i].key == e.key
        ensures slots[i].room <= n
      {
      }
      FillingRest(slots, ForgetEntries(rest), e.key, Forget(e.value));
      EntriesAtLeast(rest, slots);
      CostAddAtMost(slots, e.key, KeysOf(rest), n);
    }
  }

  lemma {:induction false} CostNothing(slots: seq<Slot>)
    ensures Cost(slots, {}) == 0
  {
    if slots != [] {
      CostNothing(slots[1..]);
    }
  }

  lemma MapAtLeast(v: Value, fields: map<bytes, Param>, slots: seq<Slot>)
    requires IterationOf(v, PMap(fields)) && DistinctSlots(slots) && Filling(slots, fields)
    requires forall i :: 0 <= i < |slots| ==> slots[i].key in fields
    ensures |Enc(v)| >= 3 + Total(slots)
  {
    hide EncEntries, Width, Filling, ForgetEntries, KeysOf, Total, Cost, WellFormedEntries;
    assert fields.Keys == KeysOf(v.entries);
    EntriesAtLeast(v.entries, slots);
    CostAll(slots, KeysOf(v.entries));
  }

  /** No item takes less than `each`. */
  ghost predicate AllAtLeast(ps: seq<Param>, each: nat)
  {
    forall i, u :: 0 <= i < |ps| && IterationOf(u, ps[i]) ==> each <= |Enc(u)|
  }

  lemma AtLeastRest(ps: seq<Param>, each: nat)
    requires ps != [] && AllAtLeast(ps, each)
    ensures AllAtLeast(ps[1..], each)
  {
    hide Enc, IterationOf;
    forall i, u | 0 <= i < |ps[1..]| && IterationOf(u, ps[1..][i])
      ensures each <= |Enc(u)|
    {
      assert ps[1..][i] == ps[i + 1];
    }
  }

  lemma {:induction false} ItemsAtLeast(items: seq<Value>, ps: seq<Param>, each: nat)
    requires WellFormedItems(items) && ForgetItems(items) == ps && AllAtLeast(ps, each)
    ensures |EncItems(items)| >= each * |ps|
  {
    hide Enc, WellFormed, Forget;
    if items != [] {
      assert IterationOf(items[0], ps[0]);
      assert each <= |Enc(items[0])|;
      assert ForgetItems(items[1..]) == ps[1..];
      AtLeastRest(ps, each);
      hide AllAtLeast;
      ItemsAtLeast(items[1..], ps[1..], each);
      OneMore(each, |ps|);
    }
  }

  lemma ListAtLeast(u: Value, ps: seq<Param>, each: nat)
    requires IterationOf(u, PList(ps)) && AllAtLeast(ps, each)
    ensures |Enc(u)| >= 3 + each * |ps|
  {
    hide EncItems, Width, ForgetItems, AllAtLeast;
    ItemsAtLeast(u.items, ps, each);
  }

  /** The sizes that no scalar and no text goes below. */
  lemma ScalarAtLeast(u: Value, p: Param)
    requires IterationOf(u, p) && (p.PI64? || p.PBool? || p.PText?)
    ensures |Enc(u)| >= if p.PText? then 2 + |p.text| else 2
  {
    hide Width;
  }
}
