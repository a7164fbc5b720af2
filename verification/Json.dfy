/**
 JSON values with ordered object entries, equality up to the order of keys at every depth, and
 rearranging the entries of every object by a rule for its keys.
 */
module Json {
  import opened KeyOrder

  /** A number is its decimal text; Undefined occurs only in JavaScript values. */
  datatype Json =
    | Null
    | Undefined
    | Bool(b: bool)
    | Num(text: string)
    | Str(s: string)
    | Arr(items: seq<Json>)
    | Obj(entries: seq<(string, Json)>)

  function Keys(entries: seq<(string, Json)>): seq<string> {
    seq(|entries|, i requires 0 <= i < |entries| => entries[i].0)
  }

  /** The position of the entry with this key, |entries| if there is none. */
  function IndexOf(entries: seq<(string, Json)>, k: string): (i: nat)
    ensures i <= |entries|
    ensures i < |entries| ==> entries[i].0 == k
    ensures i == |entries| ==> k !in Keys(entries)
  {
    if entries == [] then 0
    else if entries[0].0 == k then 0
    else
      var i := IndexOf(entries[1..], k);
      assert i == |entries[1..]| ==> forall j :: 1 <= j < |entries| ==> Keys(entries)[j] == Keys(entries[1..])[j - 1];
      i + 1
  }

  /** Object keys are distinct, at every depth. */
  ghost predicate WellFormed(v: Json) {
    match v
    case Arr(items) => forall i :: 0 <= i < |items| ==> WellFormed(items[i])
    case Obj(entries) => Distinct(Keys(entries)) && forall i :: 0 <= i < |entries| ==> WellFormed(entries[i].1)
    case _ => true
  }

  /** Equal up to the order of object keys at every depth. */
  ghost predicate Equivalent(u: Json, v: Json) {
    match u
    case Arr(items) =>
      v.Arr? && |v.items| == |items| && forall i :: 0 <= i < |items| ==> Equivalent(items[i], v.items[i])
    case Obj(entries) =>
      && v.Obj? && Elements(Keys(entries)) == Elements(Keys(v.entries))
      && forall i, j :: 0 <= i < |entries| && 0 <= j < |v.entries| && entries[i].0 == v.entries[j].0 ==>
           Equivalent(entries[i].1, v.entries[j].1)
    case _ => u == v
  }

  // ---------- Rearranging entries ----------

  type Arrangement = seq<string> -> seq<string>

  /** The entry of the rearranged object at a key: its value, rearranged in turn. */
  function Rearrange(arrange: Arrangement, v: Json): Json
    decreases v
  {
    match v
    case Arr(items) => Arr(seq(|items|, i requires 0 <= i < |items| => Rearrange(arrange, items[i])))
    case Obj(entries) =>
      var ks := arrange(Keys(entries));
      Obj(seq(|ks|, i requires 0 <= i < |ks| =>
        var j := IndexOf(entries, ks[i]);
        (ks[i], if j < |entries| then Rearrange(arrange, entries[j].1) else Null)))
    case _ => v
  }

  /** The arrangement lists exactly the given keys, in an order that depends on their set alone. */
  ghost predicate Canonical(arrange: Arrangement) {
    && (forall ks :: Distinct(ks) ==> Distinct(arrange(ks)) && Elements(arrange(ks)) == Elements(ks))
    && (forall a, b :: Distinct(a) && Distinct(b) && Elements(a) == Elements(b) ==> arrange(a) == arrange(b))
  }

  lemma KeyFound(entries: seq<(string, Json)>, i: nat)
    requires i < |entries| && Distinct(Keys(entries))
    ensures IndexOf(entries, entries[i].0) == i
  {
    var j := IndexOf(entries, entries[i].0);
    assert Keys(entries)[i] == entries[i].0;
    assert j < |entries|;
    assert Keys(entries)[j] == Keys(entries)[i];
  }

  /** The rearranged object, entry by entry. */
  lemma RearrangedEntries(arrange: Arrangement, entries: seq<(string, Json)>)
    requires Canonical(arrange) && Distinct(Keys(entries))
    ensures
      var ks, out := arrange(Keys(entries)), Rearrange(arrange, Obj(entries)).entries;
      && Keys(out) == ks && Distinct(ks) && Elements(ks) == Elements(Keys(entries))
      && forall i :: 0 <= i < |out| ==>
           var j := IndexOf(entries, ks[i]); j < |entries| && out[i] == (ks[i], Rearrange(arrange, entries[j].1))
  {
    var ks, out := arrange(Keys(entries)), Rearrange(arrange, Obj(entries)).entries;
    assert |out| == |ks|;
    forall i | 0 <= i < |out|
      ensures var j := IndexOf(entries, ks[i]); j < |entries| && out[i] == (ks[i], Rearrange(arrange, entries[j].1))
    {
      assert ks[i] in Elements(ks);
    }
    assert Keys(out) == ks;
  }

  /** Rearranging loses nothing: the result is well formed and equal up to key order. */
  lemma {:induction false} RearrangeLossless(arrange: Arrangement, v: Json)
    requires Canonical(arrange) && WellFormed(v)
    ensures WellFormed(Rearrange(arrange, v)) && Equivalent(Rearrange(arrange, v), v)
    decreases v
  {
    match v
    case Arr(items) =>
      forall i | 0 <= i < |items|
        ensures WellFormed(Rearrange(arrange, items[i])) && Equivalent(Rearrange(arrange, items[i]), items[i])
      {
        RearrangeLossless(arrange, items[i]);
      }
    case Obj(entries) =>
      RearrangedEntries(arrange, entries);
      var ks, out := arrange(Keys(entries)), Rearrange(arrange, v).entries;
      forall i | 0 <= i < |out|
        ensures var j := IndexOf(entries, ks[i]);
          WellFormed(out[i].1) && j < |entries| && Equivalent(out[i].1, entries[j].1)
      {
        var j := IndexOf(entries, ks[i]);
        RearrangeLossless(arrange, entries[j].1);
      }
      forall i, j | 0 <= i < |out| && 0 <= j < |entries| && out[i].0 == entries[j].0
        ensures Equivalent(out[i].1, entries[j].1)
      {
        KeyFound(entries, j);
      }
    case _ =>
  }

  /** Values equal up to key order become the identical value. */
  lemma {:induction false} RearrangeDeterministic(arrange: Arrangement, u: Json, v: Json)
    requires Canonical(arrange) && WellFormed(u) && WellFormed(v) && Equivalent(u, v)
    ensures Rearrange(arrange, u) == Rearrange(arrange, v)
    decreases u
  {
    match u
    case Arr(items) =>
      forall i | 0 <= i < |items| ensures Rearrange(arrange, items[i]) == Rearrange(arrange, v.items[i]) {
        RearrangeDeterministic(arrange, items[i], v.items[i]);
      }
    case Obj(entries) =>
      RearrangedEntries(arrange, entries);
      RearrangedEntries(arrange, v.entries);
      var ks := arrange(Keys(entries));
      assert ks == arrange(Keys(v.entries));
      var a, b := Rearrange(arrange, u).entries, Rearrange(arrange, v).entries;
      forall i | 0 <= i < |ks| ensures a[i] == b[i] {
        var j, l := IndexOf(entries, ks[i]), IndexOf(v.entries, ks[i]);
        RearrangeDeterministic(arrange, entries[j].1, v.entries[l].1);
      }
      assert |a| == |Keys(a)| == |Keys(b)| == |b|;
    case _ =>
  }

  lemma {:induction false} EquivalentSymmetric(u: Json, v: Json)
    requires Equivalent(u, v)
    ensures Equivalent(v, u)
    decreases u
  {
    match u
    case Arr(items) =>
      forall i | 0 <= i < |items| ensures Equivalent(v.items[i], items[i]) {
        EquivalentSymmetric(items[i], v.items[i]);
      }
    case Obj(entries) =>
      forall i, j | 0 <= i < |v.entries| && 0 <= j < |entries| && v.entries[i].0 == entries[j].0
        ensures Equivalent(v.entries[i].1, entries[j].1)
      {
        EquivalentSymmetric(entries[j].1, v.entries[i].1);
      }
    case _ =>
  }

  lemma {:induction false} EquivalentTransitive(u: Json, v: Json, w: Json)
    requires Equivalent(u, v) && Equivalent(v, w)
    ensures Equivalent(u, w)
    decreases u
  {
    match u
    case Arr(items) =>
      forall i | 0 <= i < |items| ensures Equivalent(items[i], w.items[i]) {
        EquivalentTransitive(items[i], v.items[i], w.items[i]);
      }
    case Obj(entries) =>
      forall i, j | 0 <= i < |entries| && 0 <= j < |w.entries| && entries[i].0 == w.entries[j].0
        ensures Equivalent(entries[i].1, w.entries[j].1)
      {
        assert Keys(entries)[i] in Elements(Keys(v.entries));
        var l :| 0 <= l < |v.entries| && Keys(v.entries)[l] == entries[i].0;
        EquivalentTransitive(entries[i].1, v.entries[l].1, w.entries[j].1);
      }
    case _ =>
  }

  /** Two values are rearranged alike exactly when they are equal up to key order. */
  lemma RearrangeCharacterizes(arrange: Arrangement, u: Json, v: Json)
    requires Canonical(arrange) && WellFormed(u) && WellFormed(v)
    ensures Rearrange(arrange, u) == Rearrange(arrange, v) <==> Equivalent(u, v)
  {
    if Equivalent(u, v) {
      RearrangeDeterministic(arrange, u, v);
    }
    if Rearrange(arrange, u) == Rearrange(arrange, v) {
      RearrangeLossless(arrange, u);
      RearrangeLossless(arrange, v);
      EquivalentSymmetric(Rearrange(arrange, u), u);
      EquivalentTransitive(u, Rearrange(arrange, u), v);
    }
  }

  lemma RearrangeIdempotent(arrange: Arrangement, v: Json)
    requires Canonical(arrange) && WellFormed(v)
    ensures Rearrange(arrange, Rearrange(arrange, v)) == Rearrange(arrange, v)
  {
    RearrangeLossless(arrange, v);
    RearrangeDeterministic(arrange, Rearrange(arrange, v), v);
  }

  // ---------- Arrangements that sort ----------

  ghost predicate SortsBy(arrange: Arrangement, f: string -> seq<int>) {
    forall ks :: Distinct(ks) ==> StrictlySorted(arrange(ks), f) && Elements(arrange(ks)) == Elements(ks)
  }

  lemma SortingIsCanonical(arrange: Arrangement, f: string -> seq<int>)
    requires SortsBy(arrange, f)
    ensures Canonical(arrange)
  {
    forall ks | Distinct(ks) ensures Distinct(arrange(ks)) {
      SortedIsDistinct(arrange(ks), f);
    }
    forall a, b | Distinct(a) && Distinct(b) && Elements(a) == Elements(b) ensures arrange(a) == arrange(b) {
      SortedUnique(arrange(a), arrange(b), f);
    }
  }

  /** At every depth, the keys of each object are strictly sorted. */
  ghost predicate Ordered(v: Json, f: string -> seq<int>) {
    match v
    case Arr(items) => forall i :: 0 <= i < |items| ==> Ordered(items[i], f)
    case Obj(entries) =>
      StrictlySorted(Keys(entries), f) && forall i :: 0 <= i < |entries| ==> Ordered(entries[i].1, f)
    case _ => true
  }

  lemma {:induction false} RearrangeOrders(arrange: Arrangement, f: string -> seq<int>, v: Json)
    requires SortsBy(arrange, f) && WellFormed(v)
    ensures Ordered(Rearrange(arrange, v), f)
    decreases v
  {
    match v
    case Arr(items) =>
      forall i | 0 <= i < |items| ensures Ordered(Rearrange(arrange, items[i]), f) {
        RearrangeOrders(arrange, f, items[i]);
      }
    case Obj(entries) =>
      SortingIsCanonical(arrange, f);
      RearrangedEntries(arrange, entries);
      var ks, out := arrange(Keys(entries)), Rearrange(arrange, v).entries;
      assert |out| == |Keys(out)|;
      forall i | 0 <= i < |out| ensures Ordered(out[i].1, f) {
        RearrangeOrders(arrange, f, entries[IndexOf(entries, ks[i])].1);
      }
    case _ =>
  }

  /** A value whose objects are sorted already is left as it is. */
  lemma {:induction false} OrderedIsFixed(arrange: Arrangement, f: string -> seq<int>, v: Json)
    requires SortsBy(arrange, f) && WellFormed(v) && Ordered(v, f)
    ensures Rearrange(arrange, v) == v
    decreases v
  {
    match v
    case Arr(items) =>
      forall i | 0 <= i < |items| ensures Rearrange(arrange, items[i]) == items[i] {
        OrderedIsFixed(arrange, f, items[i]);
      }
    case Obj(entries) =>
      SortingIsCanonical(arrange, f);
      RearrangedEntries(arrange, entries);
      SortedUnique(arrange(Keys(entries)), Keys(entries), f);
      var out := Rearrange(arrange, v).entries;
      assert |out| == |Keys(out)| == |entries|;
      forall i | 0 <= i < |entries| ensures out[i] == entries[i] {
        assert Keys(entries)[i] == entries[i].0;
        KeyFound(entries, i);
        OrderedIsFixed(arrange, f, entries[i].1);
      }
      assert out == entries;
    case _ =>
  }

  /**
   Rearranging by a sorting rule is characterized by its result: the one well-formed value that is
   equal to the input up to key order and whose objects are all sorted.
   */
  lemma RearrangeIsTheOrderedForm(arrange: Arrangement, f: string -> seq<int>, v: Json, w: Json)
    requires SortsBy(arrange, f) && WellFormed(v)
    ensures w == Rearrange(arrange, v) <==> WellFormed(w) && Equivalent(w, v) && Ordered(w, f)
  {
    SortingIsCanonical(arrange, f);
    RearrangeLossless(arrange, v);
    RearrangeOrders(arrange, f, v);
    if WellFormed(w) && Equivalent(w, v) && Ordered(w, f) {
      OrderedIsFixed(arrange, f, w);
      RearrangeDeterministic(arrange, w, v);
    }
  }

  /** Both arrangements treat the keys of every object in the value alike. */
  ghost predicate ArrangedAlike(a: Arrangement, b: Arrangement, v: Json) {
    match v
    case Arr(items) => forall i :: 0 <= i < |items| ==> ArrangedAlike(a, b, items[i])
    case Obj(entries) =>
      a(Keys(entries)) == b(Keys(entries)) && forall i :: 0 <= i < |entries| ==> ArrangedAlike(a, b, entries[i].1)
    case _ => true
  }

  /** Two arrangements, the first of which loses no key, agree on a value exactly when they do on each of its objects. */
  lemma {:induction false} RearrangeAgree(a: Arrangement, b: Arrangement, v: Json)
    requires Canonical(a) && WellFormed(v)
    ensures Rearrange(a, v) == Rearrange(b, v) <==> ArrangedAlike(a, b, v)
    decreases v
  {
    match v
    case Arr(items) =>
      forall i | 0 <= i < |items| ensures Rearrange(a, items[i]) == Rearrange(b, items[i]) <==> ArrangedAlike(a, b, items[i]) {
        RearrangeAgree(a, b, items[i]);
      }
      var x, y := Rearrange(a, v).items, Rearrange(b, v).items;
      if x == y {
        forall i | 0 <= i < |items| ensures ArrangedAlike(a, b, items[i]) {
          assert x[i] == y[i];
        }
      }
      if ArrangedAlike(a, b, v) {
        assert x == y;
      }
    case Obj(entries) =>
      forall i | 0 <= i < |entries|
        ensures Rearrange(a, entries[i].1) == Rearrange(b, entries[i].1) <==> ArrangedAlike(a, b, entries[i].1)
      {
        RearrangeAgree(a, b, entries[i].1);
      }
      RearrangedEntries(a, entries);
      ArrangedKeys(b, entries);
      if Rearrange(a, v) == Rearrange(b, v) {
        forall i | 0 <= i < |entries| ensures ArrangedAlike(a, b, entries[i].1) {
          EntryArranged(a, b, entries, i);
        }
      }
      if ArrangedAlike(a, b, v) {
        EntriesAlike(a, b, entries);
      }
    case _ =>
  }

  lemma ArrangedKeys(arrange: Arrangement, entries: seq<(string, Json)>)
    ensures Keys(Rearrange(arrange, Obj(entries)).entries) == arrange(Keys(entries))
  {
    var ks, out := arrange(Keys(entries)), Rearrange(arrange, Obj(entries)).entries;
    assert |out| == |ks|;
    assert Keys(out) == ks;
  }

  lemma EntryArranged(a: Arrangement, b: Arrangement, entries: seq<(string, Json)>, i: nat)
    requires Canonical(a) && Distinct(Keys(entries)) && i < |entries|
    requires Rearrange(a, Obj(entries)) == Rearrange(b, Obj(entries))
    ensures Rearrange(a, entries[i].1) == Rearrange(b, entries[i].1)
  {
    ArrangedKeys(a, entries);
    ArrangedKeys(b, entries);
    KeyFound(entries, i);
    var ks := a(Keys(entries));
    assert Keys(entries)[i] in Elements(Keys(entries));
    assert entries[i].0 in Elements(ks);
    var m :| 0 <= m < |ks| && ks[m] == entries[i].0;
    var x, y := Rearrange(a, Obj(entries)).entries, Rearrange(b, Obj(entries)).entries;
    assert x[m] == y[m];
    assert x[m] == (ks[m], Rearrange(a, entries[i].1));
    assert y[m] == (ks[m], Rearrange(b, entries[i].1));
  }

  lemma EntriesAlike(a: Arrangement, b: Arrangement, entries: seq<(string, Json)>)
    requires a(Keys(entries)) == b(Keys(entries))
    requires forall i :: 0 <= i < |entries| ==> Rearrange(a, entries[i].1) == Rearrange(b, entries[i].1)
    ensures Rearrange(a, Obj(entries)) == Rearrange(b, Obj(entries))
  {
    var x, y := Rearrange(a, Obj(entries)).entries, Rearrange(b, Obj(entries)).entries;
    assert |x| == |y| == |a(Keys(entries))|;
    forall m | 0 <= m < |x| ensures x[m] == y[m] {
    }
    assert x == y;
  }
}
