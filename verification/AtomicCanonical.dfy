/**
 The JSON✯Atomic canonicalizer, which reorders the keys of every object: nine named keys first in
 a fixed order, then the others by name. It exists once in Rust and once in TypeScript.
 */
module AtomicCanonical {
  import opened KeyOrder
  import opened Json
  import opened JsonText
  import opened Options

  function FixedOrder(): seq<string> {
    ["id", "ts", "kind", "scope", "actor", "refs", "data", "meta", "sig"]
  }

  /** The position of a named key, 9 for every other key. */
  function Rank(k: string): (r: nat)
    ensures r <= 9 && (r < 9 ==> FixedOrder()[r] == k) && (r == 9 ==> k !in FixedOrder())
  {
    if k == "id" then 0 else if k == "ts" then 1 else if k == "kind" then 2 else if k == "scope" then 3
    else if k == "actor" then 4 else if k == "refs" then 5 else if k == "data" then 6 else if k == "meta" then 7
    else if k == "sig" then 8 else 9
  }

  /** The order of canonical objects: by rank, then by code points. */
  function RankThenName(k: string): seq<int> {
    [Rank(k)] + CodePoints(k)
  }

  lemma OrderRanks(i: nat)
    requires i < 9
    ensures Rank(FixedOrder()[i]) == i
  {
  }

  // ---------- Objects as the Rust code builds them ----------

  /** Those of the named keys from position i on that occur among the given keys. */
  function Named(i: nat, keys: seq<string>): seq<string>
    requires i <= 9
    decreases 9 - i
  {
    if i == 9 then [] else if FixedOrder()[i] in keys then [FixedOrder()[i]] + Named(i + 1, keys) else Named(i + 1, keys)
  }

  function Unnamed(keys: seq<string>): seq<string> {
    if keys == [] then []
    else if keys[0] in FixedOrder() then Unnamed(keys[1..])
    else [keys[0]] + Unnamed(keys[1..])
  }

  /** The keys in the order in which they are inserted into the output. */
  function AtomicOrder(keys: seq<string>): seq<string> {
    Named(0, keys) + SortBy(Unnamed(keys), CodePoints)
  }

  lemma {:induction false} NamedSorted(i: nat, keys: seq<string>)
    requires i <= 9
    ensures StrictlySorted(Named(i, keys), RankThenName)
    ensures forall k :: k in Named(i, keys) <==> Rank(k) < 9 && Rank(k) >= i && k in keys
    decreases 9 - i
  {
    if i < 9 {
      NamedSorted(i + 1, keys);
      OrderRanks(i);
      var k, rest := FixedOrder()[i], Named(i + 1, keys);
      NamedIs(keys, i);
      hide FixedOrder, Rank, Named, RankThenName, LexLess;
      forall j | 0 <= j < |rest| ensures LexLess(RankThenName(k), RankThenName(rest[j])) {
        assert rest[j] in rest;
        LowerRankFirst(k, rest[j]);
      }
    }
  }

  lemma NamedIs(keys: seq<string>, i: nat)
    requires i < 9
    ensures Named(i, keys) == (if FixedOrder()[i] in keys then [FixedOrder()[i]] else []) + Named(i + 1, keys)
    ensures forall k :: Rank(k) == i <==> k == FixedOrder()[i]
  {
    OrderRanks(i);
    hide FixedOrder;
  }

  lemma LowerRankFirst(a: string, b: string)
    requires Rank(a) < Rank(b)
    ensures LexLess(RankThenName(a), RankThenName(b))
  {
    hide Rank;
  }

  lemma {:induction false} UnnamedKeys(keys: seq<string>)
    requires Distinct(keys)
    ensures Distinct(Unnamed(keys))
    ensures forall k :: k in Unnamed(keys) <==> Rank(k) == 9 && k in keys
  {
    if keys != [] {
      var tail := keys[1..];
      assert keys == [keys[0]] + tail;
      UnnamedKeys(tail);
      hide FixedOrder, Rank;
      var rest := Unnamed(tail);
      assert keys[0] !in tail;
      forall j | 0 <= j < |rest| ensures rest[j] != keys[0] {
        assert rest[j] in rest;
      }
    }
  }

  /** Among keys of rank 9 the two orders coincide. */
  lemma UnnamedSorted(keys: seq<string>)
    requires StrictlySorted(keys, CodePoints) && forall k :: k in keys ==> Rank(k) == 9
    ensures StrictlySorted(keys, RankThenName)
  {
    hide Rank;
    forall i, j | 0 <= i < j < |keys| ensures LexLess(RankThenName(keys[i]), RankThenName(keys[j])) {
      assert keys[i] in keys && keys[j] in keys;
      PrefixedLess(9, CodePoints(keys[i]), CodePoints(keys[j]));
    }
  }

  lemma PrefixedLess(n: int, a: seq<int>, b: seq<int>)
    ensures LexLess([n] + a, [n] + b) <==> LexLess(a, b)
  {
    assert ([n] + a)[1..] == a && ([n] + b)[1..] == b;
  }

  /** Insertion order is the sorted order by rank and name. */
  lemma AtomicOrderSorted(keys: seq<string>)
    requires Distinct(keys)
    ensures StrictlySorted(AtomicOrder(keys), RankThenName) && Elements(AtomicOrder(keys)) == Elements(keys)
  {
    NamedSorted(0, keys);
    UnnamedKeys(keys);
    CodePointsSeparate(Elements(Unnamed(keys)));
    SortBySorted(Unnamed(keys), CodePoints);
    hide Rank, Named, Unnamed, SortBy;
    var a, b := Named(0, keys), SortBy(Unnamed(keys), CodePoints);
    forall k | k in b ensures Rank(k) == 9 && k in keys {
      assert k in Elements(b);
      assert k in Elements(Unnamed(keys));
    }
    forall k | k in keys ensures k in a || k in b {
      assert k in a || k in Elements(Unnamed(keys));
      assert k in a || k in Elements(b);
    }
    UnnamedSorted(b);
    forall i, j | 0 <= i < |a| && 0 <= j < |b| ensures LexLess(RankThenName(a[i]), RankThenName(b[j])) {
      assert a[i] in a && b[j] in b;
    }
    SortedConcat(a, b, RankThenName);
  }

  lemma SortedConcat(a: seq<string>, b: seq<string>, f: string -> seq<int>)
    requires StrictlySorted(a, f) && StrictlySorted(b, f)
    requires forall i, j :: 0 <= i < |a| && 0 <= j < |b| ==> LexLess(f(a[i]), f(b[j]))
    ensures StrictlySorted(a + b, f)
  {
  }

  lemma AtomicOrderSorts()
    ensures SortsBy(AtomicOrder, RankThenName) && Canonical(AtomicOrder)
  {
    forall ks | Distinct(ks)
      ensures StrictlySorted(AtomicOrder(ks), RankThenName) && Elements(AtomicOrder(ks)) == Elements(ks)
    {
      AtomicOrderSorted(ks);
    }
    SortingIsCanonical(AtomicOrder, RankThenName);
  }

  /** Names alone: the order in which a map without insertion order keeps its keys. */
  function NameOrder(keys: seq<string>): seq<string> {
    SortBy(keys, CodePoints)
  }

  lemma NameOrderSorts()
    ensures SortsBy(NameOrder, CodePoints) && Canonical(NameOrder)
  {
    forall ks | Distinct(ks) ensures StrictlySorted(NameOrder(ks), CodePoints) && Elements(NameOrder(ks)) == Elements(ks) {
      CodePointsSeparate(Elements(ks));
      SortBySorted(ks, CodePoints);
    }
    SortingIsCanonical(NameOrder, CodePoints);
  }

  // ---------- The Rust canonicalizer ----------

  /**
   serde_json's Map keeps insertion order only when its feature preserve_order is enabled;
   otherwise it keeps its keys sorted.
   */
  function MapOrder(preserveOrder: bool): Arrangement {
    if preserveOrder then AtomicOrder else NameOrder
  }

  /** The image of keys that order sorts by. */
  function MapKey(preserveOrder: bool): string -> seq<int> {
    if preserveOrder then RankThenName else CodePoints
  }

  lemma MapOrderSorts(preserveOrder: bool)
    ensures SortsBy(MapOrder(preserveOrder), MapKey(preserveOrder)) && Canonical(MapOrder(preserveOrder))
  {
    AtomicOrderSorts();
    NameOrderSorts();
  }

  function InsertNamed(out: seq<(string, Json)>, k: string, v: Json): seq<(string, Json)> {
    if out == [] || LexLess(CodePoints(k), CodePoints(out[0].0)) then [(k, v)] + out
    else [out[0]] + InsertNamed(out[1..], k, v)
  }

  /** Map::insert: a present key keeps its place and takes the new value. */
  function MapInsert(preserveOrder: bool, out: seq<(string, Json)>, k: string, v: Json): seq<(string, Json)> {
    var i := IndexOf(out, k);
    if i < |out| then out[i := (k, v)]
    else if preserveOrder then out + [(k, v)]
    else InsertNamed(out, k, v)
  }

  /** The output map after the keys in done have been inserted. */
  ghost predicate Built(preserveOrder: bool, m: seq<(string, Json)>, done: seq<string>, out: seq<(string, Json)>) {
    && Elements(Keys(out)) == Elements(done)
    && (if preserveOrder then Keys(out) == done else StrictlySorted(Keys(out), CodePoints))
    && forall i :: 0 <= i < |out| ==> EntryOf(preserveOrder, m, out[i])
  }

  ghost predicate EntryOf(preserveOrder: bool, m: seq<(string, Json)>, e: (string, Json)) {
    var j := IndexOf(m, e.0);
    j < |m| && e.1 == Rearrange(MapOrder(preserveOrder), m[j].1)
  }

  lemma {:induction false} InsertNamedKeys(out: seq<(string, Json)>, k: string, v: Json)
    ensures Keys(InsertNamed(out, k, v)) == Insert(k, Keys(out), CodePoints)
    decreases |out|
  {
    hide LexLess, CodePoints;
    if out == [] || LexLess(CodePoints(k), CodePoints(out[0].0)) {
      assert Keys(InsertNamed(out, k, v)) == [k] + Keys(out);
    } else {
      InsertNamedKeys(out[1..], k, v);
      assert Keys(out)[1..] == Keys(out[1..]);
      assert Keys(InsertNamed(out, k, v)) == [out[0].0] + Keys(InsertNamed(out[1..], k, v));
    }
  }

  lemma {:induction false} InsertNamedEntries(out: seq<(string, Json)>, k: string, v: Json)
    ensures forall e :: e in InsertNamed(out, k, v) ==> e == (k, v) || e in out
  {
    hide LexLess, CodePoints;
    if out != [] && !LexLess(CodePoints(k), CodePoints(out[0].0)) {
      InsertNamedEntries(out[1..], k, v);
    }
  }

  lemma FoundKey(out: seq<(string, Json)>, k: string)
    ensures IndexOf(out, k) < |out| ==> k in Keys(out)
  {
    var i := IndexOf(out, k);
    if i < |out| {
      assert Keys(out)[i] == k;
    }
  }

  lemma InsertBuilds(preserveOrder: bool, m: seq<(string, Json)>, done: seq<string>, out: seq<(string, Json)>,
                     k: string, v: Json)
    requires Built(preserveOrder, m, done, out) && k !in done && EntryOf(preserveOrder, m, (k, v))
    ensures Built(preserveOrder, m, done + [k], MapInsert(preserveOrder, out, k, v))
  {
    var next := MapInsert(preserveOrder, out, k, v);
    assert k !in Elements(Keys(out));
    FoundKey(out, k);
    if preserveOrder {
      assert Keys(next) == Keys(out) + [k];
    } else {
      InsertNamedKeys(out, k, v);
      InsertNamedEntries(out, k, v);
      forall i | 0 <= i < |Keys(out)| ensures CodePoints(Keys(out)[i]) != CodePoints(k) {
        if CodePoints(Keys(out)[i]) == CodePoints(k) {
          CodePointsInjective(Keys(out)[i], k);
        }
      }
      InsertSorted(k, Keys(out), CodePoints);
    }
    forall i | 0 <= i < |next| ensures EntryOf(preserveOrder, m, next[i]) {
      assert next[i] in next;
    }
    assert Elements(done + [k]) == Elements(done) + {k};
  }

  lemma NothingBuilt(preserveOrder: bool, m: seq<(string, Json)>)
    ensures Built(preserveOrder, m, [], [])
  {
  }

  /** Once all keys are in, the map's keys are in their final order. */
  lemma BuiltKeys(preserveOrder: bool, m: seq<(string, Json)>, out: seq<(string, Json)>)
    requires Distinct(Keys(m)) && Built(preserveOrder, m, AtomicOrder(Keys(m)), out)
    ensures Keys(out) == MapOrder(preserveOrder)(Keys(m))
  {
    if !preserveOrder {
      AtomicOrderSorts();
      NameOrderSorts();
      hide AtomicOrder, NameOrder, CodePoints;
      SortedUnique(Keys(out), NameOrder(Keys(m)), CodePoints);
    }
  }

  /** Once all keys are in, the map is the rearranged object. */
  lemma BuiltWhole(preserveOrder: bool, m: seq<(string, Json)>, out: seq<(string, Json)>)
    requires Distinct(Keys(m)) && Built(preserveOrder, m, AtomicOrder(Keys(m)), out)
    ensures Obj(out) == Rearrange(MapOrder(preserveOrder), Obj(m))
  {
    BuiltKeys(preserveOrder, m, out);
    MapOrderSorts(preserveOrder);
    hide AtomicOrder, MapOrder;
    var order := MapOrder(preserveOrder);
    RearrangedEntries(order, m);
    hide Rearrange;
    var whole := Rearrange(order, Obj(m)).entries;
    assert |whole| == |Keys(whole)| == |Keys(out)| == |out|;
    forall i | 0 <= i < |out| ensures out[i] == whole[i] {
      assert out[i].0 == Keys(out)[i];
      assert EntryOf(preserveOrder, m, out[i]);
    }
    assert out == whole;
    RearrangedIsObject(order, m);
  }

  lemma RearrangedIsObject(order: Arrangement, m: seq<(string, Json)>)
    ensures Rearrange(order, Obj(m)).Obj?
  {
  }

  lemma NamedBefore(i: nat, keys: seq<string>)
    requires i < 9
    ensures Named(i, keys) == (if FixedOrder()[i] in keys then [FixedOrder()[i]] else []) + Named(i + 1, keys)
  {
  }

  lemma NoneNamed(keys: seq<string>)
    ensures Named(9, keys) == []
  {
  }

  lemma RestAfterNamed(keys: seq<string>)
    ensures AtomicOrder(keys) == Named(0, keys) + SortBy(Unnamed(keys), CodePoints)
  {
  }

  /** A key to be inserted next has not been inserted, and it is one of the object's keys. */
  lemma NextKey(m: seq<(string, Json)>, done: seq<string>, k: string, later: seq<string>)
    requires Distinct(Keys(m)) && done + [k] + later == AtomicOrder(Keys(m))
    ensures k !in done && IndexOf(m, k) < |m|
  {
    AtomicOrderSorted(Keys(m));
    var all := AtomicOrder(Keys(m));
    SortedIsDistinct(all, RankThenName);
    hide AtomicOrder, RankThenName;
    assert all[|done|] == k;
    assert k in Elements(all);
    forall i | 0 <= i < |done| ensures done[i] != k {
      assert all[i] == done[i];
    }
  }

  lemma EntryBuilt(preserveOrder: bool, m: seq<(string, Json)>, k: string)
    requires IndexOf(m, k) < |m|
    ensures EntryOf(preserveOrder, m, (k, Rearrange(MapOrder(preserveOrder), m[IndexOf(m, k)].1)))
  {
  }

  /**
   The recursive walk: an object's named keys are inserted first, in their fixed order, then the
   sorted others; arrays are mapped; leaves are copied.
   */
  method Canonicalize(preserveOrder: bool, v: Json) returns (r: Json)
    requires WellFormed(v)
    ensures r == Rearrange(MapOrder(preserveOrder), v)
    decreases v, 1
  {
    match v
    case Obj(m) =>
      r := CanonicalizeObject(preserveOrder, m, v);
    case Arr(items) =>
      hide MapOrder;
      var out: seq<Json> := [];
      for i := 0 to |items|
        invariant |out| == i
        invariant forall j :: 0 <= j < i ==> out[j] == Rearrange(MapOrder(preserveOrder), items[j])
      {
        var item := Canonicalize(preserveOrder, items[i]);
        out := out + [item];
      }
      r := Arr(out);
      assert out == Rearrange(MapOrder(preserveOrder), v).items;
    case _ =>
      r := v;
  }

  method CanonicalizeObject(preserveOrder: bool, m: seq<(string, Json)>, ghost v: Json) returns (r: Json)
    requires v == Obj(m) && WellFormed(v)
    ensures r == Rearrange(MapOrder(preserveOrder), v)
    decreases v, 0
  {
    var keys := Keys(m);
    var out: seq<(string, Json)> := [];
    ghost var done: seq<string> := [];
    var rest := SortBy(Unnamed(keys), CodePoints);
    RestAfterNamed(keys);
    NothingBuilt(preserveOrder, m);
    NoneNamed(keys);
    hide AtomicOrder, Named, Unnamed, SortBy, MapInsert, Built, EntryOf, MapOrder, Rearrange, Keys, FixedOrder,
      CodePoints;
    for i := 0 to 9
      invariant done + Named(i, keys) == Named(0, keys)
      invariant Built(preserveOrder, m, done, out)
    {
      NamedBefore(i, keys);
      OrderLength();
      var k := FixedOrder()[i];
      var j := IndexOf(m, k);
      if j < |m| {
        FoundKey(m, k);
        assert done + [k] + (Named(i + 1, keys) + rest) == AtomicOrder(keys);
        NextKey(m, done, k, Named(i + 1, keys) + rest);
        var item := Canonicalize(preserveOrder, m[j].1);
        EntryBuilt(preserveOrder, m, k);
        InsertBuilds(preserveOrder, m, done, out, k, item);
        out := MapInsert(preserveOrder, out, k, item);
        done := done + [k];
      }
    }
    for i := 0 to |rest|
      invariant done == Named(0, keys) + rest[..i]
      invariant Built(preserveOrder, m, done, out)
    {
      var k := rest[i];
      var j := IndexOf(m, k);
      assert done + [k] + rest[i + 1..] == AtomicOrder(keys);
      NextKey(m, done, k, rest[i + 1..]);
      if j < |m| {
        var item := Canonicalize(preserveOrder, m[j].1);
        EntryBuilt(preserveOrder, m, k);
        InsertBuilds(preserveOrder, m, done, out, k, item);
        out := MapInsert(preserveOrder, out, k, item);
        done := done + [k];
      }
    }
    assert rest[..|rest|] == rest;
    BuiltWhole(preserveOrder, m, out);
    r := Obj(out);
  }

  lemma OrderLength()
    ensures |FixedOrder()| == 9
  {
  }

  // ---------- What the Rust canonicalizer promises ----------

  /**
   With insertion order preserved, the canonical form is the one value equal to the input up to key
   order in which every object, at every depth, lists its named keys first and the others by name.
   */
  lemma CanonicalForm(v: Json, w: Json)
    requires WellFormed(v)
    ensures w == Rearrange(MapOrder(true), v) <==> WellFormed(w) && Equivalent(w, v) && Ordered(w, RankThenName)
  {
    AtomicOrderSorts();
    RearrangeIsTheOrderedForm(AtomicOrder, RankThenName, v, w);
  }

  /** Without it, every object lists all its keys by name instead. */
  lemma CanonicalFormByName(v: Json, w: Json)
    requires WellFormed(v)
    ensures w == Rearrange(MapOrder(false), v) <==> WellFormed(w) && Equivalent(w, v) && Ordered(w, CodePoints)
  {
    NameOrderSorts();
    RearrangeIsTheOrderedForm(NameOrder, CodePoints, v, w);
  }

  /** Either way the canonical bytes, and so the hash input, identify a value up to key order. */
  lemma CanonicalBytesIdentify(preserveOrder: bool, u: Json, v: Json)
    requires WellFormed(u) && WellFormed(v) && NumbersPrinted(u) && NumbersPrinted(v)
    requires Fill(u) == u && Fill(v) == v
    ensures
      Print(Rearrange(MapOrder(preserveOrder), u)) == Print(Rearrange(MapOrder(preserveOrder), v)) <==> Equivalent(u, v)
  {
    MapOrderSorts(preserveOrder);
    hide MapOrder;
    RearrangedTextIdentifies(MapOrder(preserveOrder), u, v);
  }

  lemma CanonicalIdempotent(preserveOrder: bool, v: Json)
    requires WellFormed(v)
    ensures
      var order := MapOrder(preserveOrder);
      Rearrange(order, Rearrange(order, v)) == Rearrange(order, v)
  {
    MapOrderSorts(preserveOrder);
    RearrangeIdempotent(MapOrder(preserveOrder), v);
  }

  /** In every object of the value, the two orders agree on each pair of keys. */
  ghost predicate OrdersAgree(v: Json, f: string -> seq<int>, g: string -> seq<int>) {
    match v
    case Arr(items) => forall i :: 0 <= i < |items| ==> OrdersAgree(items[i], f, g)
    case Obj(entries) =>
      SameOrder(Elements(Keys(entries)), f, g) && forall i :: 0 <= i < |entries| ==> OrdersAgree(entries[i].1, f, g)
    case _ => true
  }

  lemma {:induction false} AgreeingOrders(a: Arrangement, f: string -> seq<int>, b: Arrangement, g: string -> seq<int>, v: Json)
    requires SortsBy(a, f) && SortsBy(b, g) && WellFormed(v)
    ensures ArrangedAlike(a, b, v) <==> OrdersAgree(v, f, g)
    decreases v
  {
    match v
    case Arr(items) =>
      forall i | 0 <= i < |items| ensures ArrangedAlike(a, b, items[i]) <==> OrdersAgree(items[i], f, g) {
        AgreeingOrders(a, f, b, g, items[i]);
      }
    case Obj(entries) =>
      SortedAgree(a(Keys(entries)), b(Keys(entries)), f, g);
      forall i | 0 <= i < |entries| ensures ArrangedAlike(a, b, entries[i].1) <==> OrdersAgree(entries[i].1, f, g) {
        AgreeingOrders(a, f, b, g, entries[i].1);
      }
    case _ =>
  }

  /**
   The fixed order survives a sorting map exactly on the values in which, within each object, rank
   and name order every pair of keys alike.
   */
  lemma FixedOrderKeptIff(v: Json)
    requires WellFormed(v)
    ensures Rearrange(MapOrder(false), v) == Rearrange(MapOrder(true), v) <==> OrdersAgree(v, RankThenName, CodePoints)
  {
    AtomicOrderSorts();
    NameOrderSorts();
    RearrangeAgree(AtomicOrder, NameOrder, v);
    AgreeingOrders(AtomicOrder, RankThenName, NameOrder, CodePoints, v);
  }

  /** An object with the keys ts and kind, as every Atomic has them, is reordered: kind comes first. */
  lemma FixedOrderLost(v: Json)
    requires WellFormed(v) && v.Obj? && "ts" in Keys(v.entries) && "kind" in Keys(v.entries)
    ensures Rearrange(MapOrder(false), v) != Rearrange(MapOrder(true), v)
  {
    FixedOrderKeptIff(v);
    hide Rearrange;
    assert "ts" in Elements(Keys(v.entries)) && "kind" in Elements(Keys(v.entries));
    TsAndKind();
    hide RankThenName, CodePoints, LexLess;
    assert OrdersAgree(v, RankThenName, CodePoints) ==> SameOrder(Elements(Keys(v.entries)), RankThenName, CodePoints);
  }

  lemma TsAndKind()
    ensures LexLess(RankThenName("ts"), RankThenName("kind")) && !LexLess(CodePoints("ts"), CodePoints("kind"))
  {
    assert RankThenName("ts")[0] == 1 && RankThenName("kind")[0] == 2;
    assert CodePoints("ts")[0] == 't' as int && CodePoints("kind")[0] == 'k' as int;
  }

  // ---------- Atomics ----------

  datatype Scope = Scope(tenant: string, entity: Option<string>, room: Option<string>, container: Option<string>)

  datatype Signature = Signature(value: string, kid: string, alg: string)

  datatype Atomic = Atomic(id: string, ts: string, kind: string, scope: Scope, actor: string, refs: seq<string>,
                           data: Json, meta: Json, sig: Option<Signature>)

  /** An optional field that is left out when it is absent. */
  function Field(name: string, value: Option<string>): seq<(string, Json)> {
    if value == None then [] else [(name, Str(value.value))]
  }

  function ScopeValue(s: Scope): Json {
    Obj([("tenant", Str(s.tenant))] + Field("entity", s.entity) + Field("room", s.room) + Field("container", s.container))
  }

  function SignatureValue(sig: Option<Signature>): Json {
    if sig == None then Null
    else Obj([("value", Str(sig.value.value)), ("kid", Str(sig.value.kid)), ("alg", Str(sig.value.alg))])
  }

  /** serde's value of the struct, in the order of its fields; the order has no influence on the results. */
  function ToValue(a: Atomic): Json {
    Obj([("id", Str(a.id)), ("ts", Str(a.ts)), ("kind", Str(a.kind)), ("scope", ScopeValue(a.scope)), ("actor", Str(a.actor)),
         ("refs", Arr(seq(|a.refs|, i requires 0 <= i < |a.refs| => Str(a.refs[i])))), ("data", a.data), ("meta", a.meta),
         ("sig", SignatureValue(a.sig))])
  }

  lemma AtomicKeys(a: Atomic)
    ensures Keys(ToValue(a).entries) == FixedOrder()
  {
    hide ScopeValue, SignatureValue;
  }

  lemma FixedOrderDistinct()
    ensures Distinct(FixedOrder())
  {
    forall i, j | 0 <= i < j < |FixedOrder()| ensures FixedOrder()[i] != FixedOrder()[j] {
      OrderRanks(i);
      OrderRanks(j);
    }
  }

  lemma ScopeWellFormed(s: Scope)
    ensures WellFormed(ScopeValue(s))
  {
    var es := ScopeValue(s).entries;
    assert |"tenant"| == 6 && |"entity"| == 6 && |"room"| == 4 && |"container"| == 9 && "tenant"[0] == 't' && "entity"[0] == 'e';
    assert Distinct(Keys(es));
  }

  lemma SignatureWellFormed(sig: Option<Signature>)
    ensures WellFormed(SignatureValue(sig))
  {
    if sig != None {
      var es := SignatureValue(sig).entries;
      assert |"value"| == 5 && "kid"[0] == 'k' && "alg"[0] == 'a' && |"kid"| == |"alg"| == 3;
      assert Distinct(Keys(es));
    }
  }

  lemma AtomicWellFormed(a: Atomic)
    requires WellFormed(a.data) && WellFormed(a.meta)
    ensures WellFormed(ToValue(a))
  {
    AtomicKeys(a);
    FixedOrderDistinct();
    ScopeWellFormed(a.scope);
    SignatureWellFormed(a.sig);
    hide ScopeValue, SignatureValue, Distinct;
    var es := ToValue(a).entries;
    assert |es| == 9;
    forall i | 0 <= i < 9 ensures WellFormed(es[i].1) {
      assert i == 5 ==> WellFormed(es[5].1);
    }
  }

  /** An insertion-ordered map lists every Atomic's fields in the fixed order, the default map by name, which is another order. */
  lemma AtomicOrders(a: Atomic)
    requires WellFormed(a.data) && WellFormed(a.meta)
    ensures Keys(Rearrange(MapOrder(true), ToValue(a)).entries)
         == ["id", "ts", "kind", "scope", "actor", "refs", "data", "meta", "sig"]
    ensures Keys(Rearrange(MapOrder(false), ToValue(a)).entries)
         == ["actor", "data", "id", "kind", "meta", "refs", "scope", "sig", "ts"]
  {
    NamesInOrder();
    AtomicKeys(a);
    FixedOrderDistinct();
    ArrangedKeys(AtomicOrder, ToValue(a).entries);
    ArrangedKeys(NameOrder, ToValue(a).entries);
    AtomicOrderSorted(FixedOrder());
    NameOrderSorts();
    FixedOrderSorted();
    hide AtomicOrder, NameOrder, RankThenName, CodePoints, LexLess, Rearrange;
    SortedUnique(AtomicOrder(FixedOrder()), FixedOrder(), RankThenName);
  }

  lemma AsciiLess(a: string, b: string)
    requires |a| >= 2 && |b| >= 2 && (a[0] < b[0] || (a[0] == b[0] && a[1] < b[1]))
    ensures LexLess(CodePoints(a), CodePoints(b))
  {
    assert CodePoints(a)[1..] == CodePoints(a[1..]) && CodePoints(b)[1..] == CodePoints(b[1..]);
  }

  function NamesByName(): seq<string> {
    ["actor", "data", "id", "kind", "meta", "refs", "scope", "sig", "ts"]
  }

  lemma NamesSorted()
    ensures StrictlySorted(NamesByName(), CodePoints)
  {
    var names := NamesByName();
    assert names[0][0] == 'a' && names[1][0] == 'd' && names[2][0] == 'i' && names[3][0] == 'k' && names[4][0] == 'm'
        && names[5][0] == 'r' && names[6][0] == 's' && names[7][0] == 's' && names[8][0] == 't';
    assert names[6][1] == 'c' && names[7][1] == 'i';
    hide CodePoints, LexLess;
    forall i, j | 0 <= i < j < 9 ensures LexLess(CodePoints(names[i]), CodePoints(names[j])) {
      AsciiLess(names[i], names[j]);
    }
  }

  lemma SameNames()
    ensures Elements(NamesByName()) == Elements(FixedOrder())
  {
    var ks, names := FixedOrder(), NamesByName();
    assert names[0] == ks[4] && names[1] == ks[6] && names[2] == ks[0] && names[3] == ks[2] && names[4] == ks[7]
        && names[5] == ks[5] && names[6] == ks[3] && names[7] == ks[8] && names[8] == ks[1];
  }

  lemma NamesInOrder()
    ensures NameOrder(FixedOrder()) == ["actor", "data", "id", "kind", "meta", "refs", "scope", "sig", "ts"]
  {
    FixedOrderDistinct();
    NameOrderSorts();
    NamesSorted();
    SameNames();
    hide NameOrder, LexLess, CodePoints, FixedOrder, StrictlySorted;
    SortedUnique(NameOrder(FixedOrder()), NamesByName(), CodePoints);
  }

  lemma FixedOrderSorted()
    ensures StrictlySorted(FixedOrder(), RankThenName)
  {
    forall i, j | 0 <= i < j < 9 ensures LexLess(RankThenName(FixedOrder()[i]), RankThenName(FixedOrder()[j])) {
      OrderRanks(i);
      OrderRanks(j);
      assert RankThenName(FixedOrder()[i])[0] == i && RankThenName(FixedOrder()[j])[0] == j;
    }
  }
}
