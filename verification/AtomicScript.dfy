/**
 The TypeScript version of the JSON✯Atomic canonicalizer. It fixes the same order of assignments,
 but the output is a JavaScript object: its enumeration puts integer-like keys first, in ascending
 order, and assigning to __proto__ adds no key at all.
 */
module AtomicScript {
  import opened KeyOrder
  import opened Json
  import opened AtomicCanonical

  // ---------- Integer-like keys ----------

  predicate Digits(k: string) {
    forall i :: 0 <= i < |k| ==> '0' <= k[i] <= '9'
  }

  function Decimal(k: string): nat
    requires Digits(k)
  {
    if k == "" then 0 else Decimal(k[..|k| - 1]) * 10 + (k[|k| - 1] as int - '0' as int)
  }

  /** A decimal numeral without leading zeros. */
  predicate Numeral(k: string) {
    k != "" && Digits(k) && (|k| == 1 || k[0] != '0')
  }

  /** An array index of ECMAScript: a numeral below 2^32 - 1. */
  predicate IntegerLike(k: string) {
    Numeral(k) && Decimal(k) < 0xFFFF_FFFF
  }

  lemma {:induction false} LongNumeral(k: string)
    requires Numeral(k)
    ensures |k| > 1 <==> Decimal(k) >= 10
  {
    var front := k[..|k| - 1];
    if |k| == 2 {
      assert front[..0] == "" && front[0] == k[0];
    } else if |k| > 2 {
      LongNumeral(front);
    }
  }

  lemma {:induction false} DecimalInjective(a: string, b: string)
    requires Numeral(a) && Numeral(b) && Decimal(a) == Decimal(b)
    ensures a == b
    decreases |a|
  {
    LongNumeral(a);
    LongNumeral(b);
    LastDigit(a);
    LastDigit(b);
    var x, y := a[..|a| - 1], b[..|b| - 1];
    if |a| > 1 {
      DecimalInjective(x, y);
    } else {
      assert x == y == "";
    }
    assert a == x + [a[|a| - 1]] && b == y + [b[|b| - 1]];
  }

  lemma LastDigit(k: string)
    requires Numeral(k)
    ensures Decimal(k) / 10 == Decimal(k[..|k| - 1]) && Decimal(k) % 10 == k[|k| - 1] as int - '0' as int
  {
  }

  /** The decimal text of a number. */
  function Text(n: nat): string {
    if n < 10 then ["0123456789"[n]] else Text(n / 10) + ["0123456789"[n % 10]]
  }

  lemma {:induction false} TextIsNumeral(n: nat)
    ensures Numeral(Text(n)) && Decimal(Text(n)) == n && (n > 0 ==> Text(n)[0] != '0')
  {
    if n >= 10 {
      TextIsNumeral(n / 10);
      var front := Text(n / 10);
      assert Text(n)[..|front|] == front && Text(n)[0] == front[0];
    }
  }

  /** The integer-like keys are the texts of the numbers below 4294967295, the array indices of ECMAScript. */
  lemma IntegerLikeIff(k: string)
    ensures IntegerLike(k) <==> exists n: nat :: n < 4294967295 && k == Text(n)
  {
    if IntegerLike(k) {
      TextIsNumeral(Decimal(k));
      DecimalInjective(k, Text(Decimal(k)));
    }
    if n: nat :| n < 4294967295 && k == Text(n) {
      TextIsNumeral(n);
    }
  }

  // ---------- The order of the output object ----------

  /** By rank and then by code units, whether integer-like or not. */
  function RankThenUnits(k: string): seq<int> {
    [Rank(k)] + Utf16(k)
  }

  /** Integer-like keys by value, before all others by rank and then by code units. */
  function ScriptKey(k: string): seq<int> {
    if IntegerLike(k) then [0, Decimal(k)] else [1] + RankThenUnits(k)
  }

  lemma ScriptKeyInjective(a: string, b: string)
    requires ScriptKey(a) == ScriptKey(b)
    ensures a == b
  {
    assert ScriptKey(a)[0] == ScriptKey(b)[0];
    if IntegerLike(a) {
      assert ScriptKey(a)[1] == ScriptKey(b)[1];
      DecimalInjective(a, b);
    } else {
      hide IntegerLike, Utf16;
      assert ScriptKey(a)[1..] == RankThenUnits(a) && ScriptKey(b)[1..] == RankThenUnits(b);
      assert RankThenUnits(a)[1..] == Utf16(a) && RankThenUnits(b)[1..] == Utf16(b);
      Utf16Injective(a, b);
    }
  }

  lemma ScriptKeySeparates(s: set<string>)
    ensures InjectiveOn(s, ScriptKey)
  {
    hide ScriptKey;
    forall a, b | a in s && b in s && ScriptKey(a) == ScriptKey(b) ensures a == b {
      ScriptKeyInjective(a, b);
    }
  }

  /** The order in which the script assigns keys to the output. */
  function Assigned(keys: seq<string>): seq<string> {
    Named(0, keys) + SortBy(Unnamed(keys), Utf16)
  }

  /** Assigning to __proto__ sets the prototype instead of adding a key. */
  function Added(keys: seq<string>): seq<string> {
    if keys == [] then []
    else if keys[0] == "__proto__" then Added(keys[1..])
    else [keys[0]] + Added(keys[1..])
  }

  function Indices(keys: seq<string>): seq<string> {
    if keys == [] then []
    else if IntegerLike(keys[0]) then [keys[0]] + Indices(keys[1..])
    else Indices(keys[1..])
  }

  function Others(keys: seq<string>): seq<string> {
    if keys == [] then []
    else if IntegerLike(keys[0]) then Others(keys[1..])
    else [keys[0]] + Others(keys[1..])
  }

  /** Own keys of an object whose keys were added in this order, as they are enumerated. */
  function Enumerated(keys: seq<string>): seq<string> {
    SortBy(Indices(keys), ScriptKey) + Others(keys)
  }

  function ScriptOrder(keys: seq<string>): seq<string> {
    Enumerated(Added(Assigned(keys)))
  }

  // ---------- Its meaning: sorted by ScriptKey, without __proto__ ----------

  lemma UnnamedByUnits(keys: seq<string>)
    requires StrictlySorted(keys, Utf16) && forall k :: k in keys ==> Rank(k) == 9
    ensures StrictlySorted(keys, RankThenUnits)
  {
    hide Rank;
    forall i, j | 0 <= i < j < |keys| ensures LexLess(RankThenUnits(keys[i]), RankThenUnits(keys[j])) {
      assert keys[i] in keys && keys[j] in keys;
      PrefixedLess(9, Utf16(keys[i]), Utf16(keys[j]));
    }
  }

  lemma NamedByUnits(keys: seq<string>)
    ensures StrictlySorted(Named(0, keys), RankThenUnits)
  {
    NamedSorted(0, keys);
    var a := Named(0, keys);
    hide Named, Rank;
    forall i, j | 0 <= i < j < |a| ensures LexLess(RankThenUnits(a[i]), RankThenUnits(a[j])) {
      assert a[i] in a && a[j] in a;
      NamedRanks(a[i], a[j]);
    }
  }

  lemma NamedRanks(a: string, b: string)
    requires LexLess(RankThenName(a), RankThenName(b)) && Rank(a) < 9
    ensures LexLess(RankThenUnits(a), RankThenUnits(b))
  {
    assert RankThenName(a)[0] == Rank(a) && RankThenName(b)[0] == Rank(b);
    if Rank(a) == Rank(b) {
      assert a == FixedOrder()[Rank(a)] && b == FixedOrder()[Rank(b)];
      LexIrreflexive(RankThenName(a));
    }
  }

  lemma AssignedSorted(keys: seq<string>)
    requires Distinct(keys)
    ensures StrictlySorted(Assigned(keys), RankThenUnits) && Elements(Assigned(keys)) == Elements(keys)
  {
    NamedSorted(0, keys);
    NamedByUnits(keys);
    UnnamedKeys(keys);
    Utf16Separates(Elements(Unnamed(keys)));
    SortBySorted(Unnamed(keys), Utf16);
    hide Rank, Named, Unnamed, SortBy;
    var a, b := Named(0, keys), SortBy(Unnamed(keys), Utf16);
    forall k | k in b ensures Rank(k) == 9 && k in keys {
      assert k in Elements(b);
      assert k in Elements(Unnamed(keys));
    }
    forall k | k in keys ensures k in a || k in b {
      assert k in a || k in Elements(Unnamed(keys));
      assert k in a || k in Elements(b);
    }
    UnnamedByUnits(b);
    forall i, j | 0 <= i < |a| && 0 <= j < |b| ensures LexLess(RankThenUnits(a[i]), RankThenUnits(b[j])) {
      assert a[i] in a && b[j] in b;
    }
    SortedConcat(a, b, RankThenUnits);
  }

  lemma {:induction false} AddedKeys(keys: seq<string>)
    ensures forall k :: k in Added(keys) <==> k in keys && k != "__proto__"
  {
    if keys != [] {
      assert keys == [keys[0]] + keys[1..];
      AddedKeys(keys[1..]);
      hide IntegerLike;
    }
  }

  lemma {:induction false} AddedSorted(keys: seq<string>)
    requires StrictlySorted(keys, RankThenUnits)
    ensures StrictlySorted(Added(keys), RankThenUnits)
  {
    if keys != [] {
      SortedTail(keys, RankThenUnits);
      AddedSorted(keys[1..]);
      AddedKeys(keys[1..]);
      hide RankThenUnits, LexLess, StrictlySorted, IntegerLike;
      FirstStaysLeast(keys, Added(keys[1..]), RankThenUnits);
    }
  }

  lemma SortedTail(keys: seq<string>, f: string -> seq<int>)
    requires keys != [] && StrictlySorted(keys, f)
    ensures StrictlySorted(keys[1..], f)
  {
  }

  /** Whatever is left of the tail of a sorted list, its head is below it. */
  lemma FirstStaysLeast(keys: seq<string>, rest: seq<string>, f: string -> seq<int>)
    requires keys != [] && StrictlySorted(keys, f) && StrictlySorted(rest, f)
    requires forall k :: k in rest ==> k in keys[1..]
    ensures StrictlySorted([keys[0]] + rest, f)
  {
    forall j | 0 <= j < |rest| ensures LexLess(f(keys[0]), f(rest[j])) {
      assert rest[j] in rest;
      assert rest[j] in keys[1..];
      var i :| 0 <= i < |keys[1..]| && keys[1..][i] == rest[j];
      assert keys[i + 1] == rest[j];
    }
  }

  lemma {:induction false} OthersKeys(keys: seq<string>)
    ensures forall k :: k in Others(keys) <==> k in keys && !IntegerLike(k)
  {
    if keys != [] {
      assert keys == [keys[0]] + keys[1..];
      OthersKeys(keys[1..]);
      hide IntegerLike;
    }
  }

  lemma {:induction false} OthersSorted(keys: seq<string>)
    requires StrictlySorted(keys, RankThenUnits)
    ensures StrictlySorted(Others(keys), RankThenUnits)
  {
    if keys != [] {
      SortedTail(keys, RankThenUnits);
      OthersSorted(keys[1..]);
      OthersKeys(keys[1..]);
      hide RankThenUnits, LexLess, StrictlySorted, IntegerLike;
      FirstStaysLeast(keys, Others(keys[1..]), RankThenUnits);
    }
  }

  lemma {:induction false} IndicesKept(keys: seq<string>)
    requires Distinct(keys)
    ensures Distinct(Indices(keys))
    ensures forall k :: k in Indices(keys) <==> k in keys && IntegerLike(k)
  {
    if keys != [] {
      var tail := keys[1..];
      assert keys == [keys[0]] + tail;
      IndicesKept(tail);
      hide IntegerLike;
      assert keys[0] !in tail;
      var rest := Indices(tail);
      forall j | 0 <= j < |rest| ensures rest[j] != keys[0] {
        assert rest[j] in rest;
      }
    }
  }

  lemma OthersByScriptKey(keys: seq<string>)
    requires StrictlySorted(keys, RankThenUnits) && forall k :: k in keys ==> !IntegerLike(k)
    ensures StrictlySorted(keys, ScriptKey)
  {
    hide IntegerLike, RankThenUnits;
    forall i, j | 0 <= i < j < |keys| ensures LexLess(ScriptKey(keys[i]), ScriptKey(keys[j])) {
      assert keys[i] in keys && keys[j] in keys;
      PrefixedLess(1, RankThenUnits(keys[i]), RankThenUnits(keys[j]));
    }
  }

  lemma EnumeratedSorted(keys: seq<string>)
    requires StrictlySorted(keys, RankThenUnits)
    ensures StrictlySorted(Enumerated(keys), ScriptKey) && Elements(Enumerated(keys)) == Elements(keys)
  {
    SortedIsDistinct(keys, RankThenUnits);
    IndicesKept(keys);
    OthersKeys(keys);
    OthersSorted(keys);
    ScriptKeySeparates(Elements(Indices(keys)));
    SortBySorted(Indices(keys), ScriptKey);
    OthersByScriptKey(Others(keys));
    hide IntegerLike, Indices, Others, SortBy, Rank;
    var a, b := SortBy(Indices(keys), ScriptKey), Others(keys);
    forall k | k in a ensures k in keys && IntegerLike(k) {
      assert k in Elements(a);
      assert k in Elements(Indices(keys));
    }
    forall k | k in keys ensures k in a || k in b {
      assert k in Elements(Indices(keys)) || k in b;
      assert k in Elements(a) || k in b;
    }
    forall i, j | 0 <= i < |a| && 0 <= j < |b| ensures LexLess(ScriptKey(a[i]), ScriptKey(b[j])) {
      assert a[i] in a && b[j] in b;
      assert ScriptKey(a[i])[0] == 0 && ScriptKey(b[j])[0] == 1;
    }
    SortedConcat(a, b, ScriptKey);
  }

  /** The keys of the output are those of the input but __proto__, sorted by ScriptKey. */
  lemma ScriptOrderSorted(keys: seq<string>)
    requires Distinct(keys)
    ensures StrictlySorted(ScriptOrder(keys), ScriptKey)
    ensures Elements(ScriptOrder(keys)) == Elements(keys) - {"__proto__"}
  {
    AssignedSorted(keys);
    AddedKeys(Assigned(keys));
    AddedSorted(Assigned(keys));
    EnumeratedSorted(Added(Assigned(keys)));
    hide StrictlySorted, Assigned, Enumerated, Added;
    forall k ensures k in Added(Assigned(keys)) <==> k in Elements(Assigned(keys)) && k != "__proto__" {
    }
    assert Elements(Added(Assigned(keys))) == Elements(keys) - {"__proto__"};
  }

  // ---------- The script ----------

  /** Assigning out[k]: a present key keeps its place, and __proto__ adds nothing. */
  function Assign(out: seq<(string, Json)>, k: string, v: Json): seq<(string, Json)> {
    var i := IndexOf(out, k);
    if k == "__proto__" then out
    else if i < |out| then out[i := (k, v)]
    else out + [(k, v)]
  }

  function EnumeratedEntries(out: seq<(string, Json)>): seq<(string, Json)> {
    var ks := Enumerated(Keys(out));
    seq(|ks|, i requires 0 <= i < |ks| =>
      var j := IndexOf(out, ks[i]);
      (ks[i], if j < |out| then out[j].1 else Null))
  }

  /** The output after the keys in done have been assigned. */
  ghost predicate Filled(m: seq<(string, Json)>, done: seq<string>, out: seq<(string, Json)>) {
    Keys(out) == Added(done) && forall i :: 0 <= i < |out| ==> ItemOf(m, out[i])
  }

  ghost predicate ItemOf(m: seq<(string, Json)>, e: (string, Json)) {
    var j := IndexOf(m, e.0);
    j < |m| && e.1 == Rearrange(ScriptOrder, m[j].1)
  }

  lemma {:induction false} AddedOneMore(done: seq<string>, k: string)
    ensures Added(done + [k]) == Added(done) + if k == "__proto__" then [] else [k]
    ensures forall x :: x in Added(done) ==> x in done
  {
    if done != [] {
      AddedOneMore(done[1..], k);
      assert (done + [k])[1..] == done[1..] + [k];
    }
  }

  lemma AssignFills(m: seq<(string, Json)>, done: seq<string>, out: seq<(string, Json)>, k: string, v: Json)
    requires Filled(m, done, out) && k !in done && ItemOf(m, (k, v))
    ensures Filled(m, done + [k], Assign(out, k, v))
  {
    AddedOneMore(done, k);
    FoundKey(out, k);
    hide Added;
    if k != "__proto__" {
      assert Keys(out + [(k, v)]) == Keys(out) + [k];
    }
  }

  lemma FilledWhole(m: seq<(string, Json)>, out: seq<(string, Json)>)
    requires Distinct(Keys(m)) && Filled(m, Assigned(Keys(m)), out)
    ensures Obj(EnumeratedEntries(out)) == Rearrange(ScriptOrder, Obj(m))
  {
    ScriptOrderSorted(Keys(m));
    hide Assigned, Added, Enumerated;
    ArrangedKeys(ScriptOrder, m);
    var ks := ScriptOrder(Keys(m));
    var x, y := EnumeratedEntries(out), Rearrange(ScriptOrder, Obj(m)).entries;
    assert |y| == |Keys(y)| == |ks| == |x|;
    forall i | 0 <= i < |ks| ensures x[i] == y[i] {
      assert ks[i] in Elements(ks);
      ResultKeyAdded(m, out, ks[i]);
      var j := IndexOf(out, ks[i]);
      assert ItemOf(m, out[j]);
    }
    assert x == y;
  }

  /** Every key of the result has been added to the output. */
  lemma ResultKeyAdded(m: seq<(string, Json)>, out: seq<(string, Json)>, k: string)
    requires Distinct(Keys(m)) && Keys(out) == Added(Assigned(Keys(m))) && k in ScriptOrder(Keys(m))
    ensures IndexOf(out, k) < |out| && IndexOf(m, k) < |m|
  {
    AssignedSorted(Keys(m));
    AddedKeys(Assigned(Keys(m)));
    AddedSorted(Assigned(Keys(m)));
    EnumeratedSorted(Added(Assigned(Keys(m))));
    hide Assigned, Added, Enumerated;
    assert k in Elements(Enumerated(Added(Assigned(Keys(m)))));
    assert k in Elements(Added(Assigned(Keys(m))));
    assert k in Elements(Assigned(Keys(m)));
    assert k in Elements(Keys(m));
  }

  lemma AssignedNext(m: seq<(string, Json)>, i: nat)
    requires Distinct(Keys(m)) && i < |Assigned(Keys(m))|
    ensures var order := Assigned(Keys(m)); order[i] !in order[..i] && IndexOf(m, order[i]) < |m|
  {
    AssignedSorted(Keys(m));
    SortedIsDistinct(Assigned(Keys(m)), RankThenUnits);
    hide Assigned, RankThenUnits;
    assert Assigned(Keys(m))[i] in Elements(Assigned(Keys(m)));
    assert Assigned(Keys(m))[i] in Elements(Keys(m));
  }

  lemma WellFormedKeys(m: seq<(string, Json)>)
    requires WellFormed(Obj(m))
    ensures Distinct(Keys(m))
  {
  }

  /** The i-th key to be assigned is one of the object's, and its value is part of the object. */
  lemma AssignedValue(m: seq<(string, Json)>, i: nat)
    requires WellFormed(Obj(m)) && i < |Assigned(Keys(m))|
    ensures var j := IndexOf(m, Assigned(Keys(m))[i]); j < |m| && WellFormed(m[j].1) && m[j].1 < Obj(m)
  {
    AssignedNext(m, i);
  }

  lemma FilledNext(m: seq<(string, Json)>, i: nat, out: seq<(string, Json)>)
    requires WellFormed(Obj(m)) && i < |Assigned(Keys(m))| && Filled(m, Assigned(Keys(m))[..i], out)
    requires IndexOf(m, Assigned(Keys(m))[i]) < |m|
    ensures
      var k := Assigned(Keys(m))[i];
      Filled(m, Assigned(Keys(m))[..i + 1], Assign(out, k, Rearrange(ScriptOrder, m[IndexOf(m, k)].1)))
  {
    AssignedNext(m, i);
    hide Filled, Assign, Assigned, ScriptOrder, Rearrange, Keys;
    FilledOneMore(m, Assigned(Keys(m)), i, out);
  }

  lemma FilledOneMore(m: seq<(string, Json)>, order: seq<string>, i: nat, out: seq<(string, Json)>)
    requires i < |order| && order[i] !in order[..i] && IndexOf(m, order[i]) < |m| && Filled(m, order[..i], out)
    ensures Filled(m, order[..i + 1], Assign(out, order[i], Rearrange(ScriptOrder, m[IndexOf(m, order[i])].1)))
  {
    var v := Rearrange(ScriptOrder, m[IndexOf(m, order[i])].1);
    assert ItemOf(m, (order[i], v));
    hide Filled, ItemOf, Assign, Rearrange, IndexOf;
    AssignFills(m, order[..i], out, order[i], v);
    TakeOneMore(order, i);
  }

  lemma TakeOneMore<T>(s: seq<T>, i: nat)
    requires i < |s|
    ensures s[..i + 1] == s[..i] + [s[i]]
  {
  }

  method CanonicalizeScript(v: Json) returns (r: Json)
    requires WellFormed(v)
    ensures r == Rearrange(ScriptOrder, v)
    decreases v, 1
  {
    match v
    case Arr(items) =>
      hide ScriptOrder;
      var out: seq<Json> := [];
      for i := 0 to |items|
        invariant |out| == i
        invariant forall j :: 0 <= j < i ==> out[j] == Rearrange(ScriptOrder, items[j])
      {
        var item := CanonicalizeScript(items[i]);
        out := out + [item];
      }
      r := Arr(out);
      assert out == Rearrange(ScriptOrder, v).items;
    case Obj(m) =>
      r := CanonicalizeScriptObject(m, v);
    case _ =>
      r := v;
  }

  method CanonicalizeScriptObject(m: seq<(string, Json)>, ghost v: Json) returns (r: Json)
    requires v == Obj(m) && WellFormed(v)
    ensures r == Rearrange(ScriptOrder, v)
    decreases v, 0
  {
    var order := Assigned(Keys(m));
    var out: seq<(string, Json)> := [];
    assert Filled(m, [], out);
    hide Assigned, Assign, Filled, ItemOf, EnumeratedEntries, Keys, Rearrange, ScriptOrder, WellFormed, Distinct;
    for i := 0 to |order|
      invariant Filled(m, order[..i], out)
    {
      AssignedValue(m, i);
      FilledNext(m, i, out);
      var item := CanonicalizeScript(m[IndexOf(m, order[i])].1);
      out := Assign(out, order[i], item);
    }
    WellFormedKeys(m);
    assert order[..|order|] == order;
    FilledWhole(m, out);
    r := Obj(EnumeratedEntries(out));
  }

  // ---------- What the script keeps, and where the two versions agree ----------

  ghost predicate NoProto(v: Json) {
    match v
    case Arr(items) => forall i :: 0 <= i < |items| ==> NoProto(items[i])
    case Obj(entries) =>
      "__proto__" !in Keys(entries) && forall i :: 0 <= i < |entries| ==> NoProto(entries[i].1)
    case _ => true
  }

  lemma ScriptEntries(entries: seq<(string, Json)>)
    requires Distinct(Keys(entries))
    ensures Rearrange(ScriptOrder, Obj(entries)).Obj?
    ensures
      var out := Rearrange(ScriptOrder, Obj(entries)).entries;
      && Elements(Keys(out)) == Elements(Keys(entries)) - {"__proto__"}
      && forall l :: 0 <= l < |out| ==>
           var j := IndexOf(entries, out[l].0); j < |entries| && out[l].1 == Rearrange(ScriptOrder, entries[j].1)
  {
    ScriptOrderSorted(Keys(entries));
    ArrangedKeys(ScriptOrder, entries);
    hide ScriptOrder;
    var out := Rearrange(ScriptOrder, Obj(entries)).entries;
    var ks := ScriptOrder(Keys(entries));
    forall l | 0 <= l < |out|
      ensures var j := IndexOf(entries, out[l].0); j < |entries| && out[l].1 == Rearrange(ScriptOrder, entries[j].1)
    {
      assert Keys(out)[l] == out[l].0;
      assert out[l].0 in Elements(Keys(out));
      assert out[l].0 in Elements(Keys(entries));
    }
  }

  ghost predicate Kept(v: Json) {
    Equivalent(Rearrange(ScriptOrder, v), v)
  }

  lemma KeptObject(entries: seq<(string, Json)>)
    requires Distinct(Keys(entries))
    ensures Kept(Obj(entries)) ==> "__proto__" !in Keys(entries) && forall i :: 0 <= i < |entries| ==> Kept(entries[i].1)
    ensures "__proto__" !in Keys(entries) && (forall i :: 0 <= i < |entries| ==> Kept(entries[i].1)) ==> Kept(Obj(entries))
  {
    ScriptEntries(entries);
    hide ScriptOrder, Rearrange;
    var out := Rearrange(ScriptOrder, Obj(entries)).entries;
    assert Rearrange(ScriptOrder, Obj(entries)) == Obj(out);
    assert "__proto__" in Keys(entries) <==> "__proto__" in Elements(Keys(entries));
    forall l, i | 0 <= l < |out| && 0 <= i < |entries| && out[l].0 == entries[i].0
      ensures Equivalent(out[l].1, entries[i].1) <==> Kept(entries[i].1)
    {
      KeyFound(entries, i);
    }
    if Kept(Obj(entries)) {
      forall i | 0 <= i < |entries| ensures Kept(entries[i].1) {
        assert Keys(entries)[i] in Elements(Keys(entries));
        assert entries[i].0 in Elements(Keys(out));
        var l :| 0 <= l < |Keys(out)| && Keys(out)[l] == entries[i].0;
        assert out[l].0 == entries[i].0;
      }
    }
  }

  lemma KeptArray(items: seq<Json>)
    ensures Kept(Arr(items)) <==> forall i :: 0 <= i < |items| ==> Kept(items[i])
  {
    hide ScriptOrder;
    var out := Rearrange(ScriptOrder, Arr(items)).items;
    if Kept(Arr(items)) {
      forall i | 0 <= i < |items| ensures Kept(items[i]) {
        assert Equivalent(out[i], items[i]);
      }
    }
  }

  lemma {:induction false} KeptIff(v: Json)
    requires WellFormed(v)
    ensures Kept(v) <==> NoProto(v)
    decreases v
  {
    match v
    case Arr(items) =>
      KeptArray(items);
      hide Kept;
      forall i | 0 <= i < |items| ensures Kept(items[i]) <==> NoProto(items[i]) {
        KeptIff(items[i]);
      }
    case Obj(entries) =>
      KeptObject(entries);
      hide Kept;
      forall i | 0 <= i < |entries| ensures Kept(entries[i].1) <==> NoProto(entries[i].1) {
        KeptIff(entries[i].1);
      }
    case _ =>
  }

  /** The script keeps every key and value exactly when no object has the key __proto__. */
  lemma ScriptLosslessIff(v: Json)
    requires WellFormed(v)
    ensures Equivalent(Rearrange(ScriptOrder, v), v) <==> NoProto(v)
  {
    KeptIff(v);
    hide Rearrange, Equivalent, NoProto;
  }

  /** No object has the key __proto__, and in each the map's order and the script's agree on every pair of keys. */
  ghost predicate SameInBoth(preserveOrder: bool, v: Json) {
    NoProto(v) && OrdersAgree(v, MapKey(preserveOrder), ScriptKey)
  }

  lemma KeysAgreeIff(preserveOrder: bool, keys: seq<string>)
    requires Distinct(keys)
    ensures MapOrder(preserveOrder)(keys) == ScriptOrder(keys) <==>
            "__proto__" !in keys && SameOrder(Elements(keys), MapKey(preserveOrder), ScriptKey)
  {
    MapOrderSorts(preserveOrder);
    ScriptOrderSorted(keys);
    hide MapOrder, MapKey, ScriptOrder;
    var a, b := MapOrder(preserveOrder)(keys), ScriptOrder(keys);
    assert "__proto__" in keys <==> "__proto__" in Elements(keys);
    assert "__proto__" !in Elements(b);
    if "__proto__" !in keys {
      assert Elements(b) == Elements(keys);
      SortedAgree(a, b, MapKey(preserveOrder), ScriptKey);
    }
  }

  lemma {:induction false} AlikeIff(preserveOrder: bool, v: Json)
    requires WellFormed(v)
    ensures ArrangedAlike(MapOrder(preserveOrder), ScriptOrder, v) <==> SameInBoth(preserveOrder, v)
    decreases v
  {
    hide MapOrder, MapKey, ScriptOrder, ScriptKey;
    var order := MapOrder(preserveOrder);
    match v
    case Arr(items) =>
      forall i | 0 <= i < |items| ensures ArrangedAlike(order, ScriptOrder, items[i]) <==> SameInBoth(preserveOrder, items[i]) {
        AlikeIff(preserveOrder, items[i]);
      }
    case Obj(entries) =>
      KeysAgreeIff(preserveOrder, Keys(entries));
      forall i | 0 <= i < |entries|
        ensures ArrangedAlike(order, ScriptOrder, entries[i].1) <==> SameInBoth(preserveOrder, entries[i].1)
      {
        AlikeIff(preserveOrder, entries[i].1);
      }
    case _ =>
  }

  /** For either kind of map, the two versions agree on a value exactly when its objects meet that condition. */
  lemma VersionsAgreeIff(preserveOrder: bool, v: Json)
    requires WellFormed(v)
    ensures Rearrange(ScriptOrder, v) == Rearrange(MapOrder(preserveOrder), v) <==> SameInBoth(preserveOrder, v)
  {
    MapOrderSorts(preserveOrder);
    hide MapOrder, SameInBoth;
    RearrangeAgree(MapOrder(preserveOrder), ScriptOrder, v);
    AlikeIff(preserveOrder, v);
  }

  /** Keys that rank and name order as the script does: ASCII, not integer-like, and not __proto__. */
  ghost predicate PlainKeys(v: Json) {
    match v
    case Arr(items) => forall i :: 0 <= i < |items| ==> PlainKeys(items[i])
    case Obj(entries) =>
      && (forall i :: 0 <= i < |entries| ==>
           Ascii(entries[i].0) && !IntegerLike(entries[i].0) && entries[i].0 != "__proto__")
      && forall i :: 0 <= i < |entries| ==> PlainKeys(entries[i].1)
    case _ => true
  }

  lemma {:induction false} PlainKeysSame(v: Json)
    requires PlainKeys(v)
    ensures NoProto(v) && OrdersAgree(v, RankThenName, ScriptKey)
    decreases v
  {
    match v
    case Arr(items) =>
      forall i | 0 <= i < |items| ensures NoProto(items[i]) && OrdersAgree(items[i], RankThenName, ScriptKey) {
        PlainKeysSame(items[i]);
      }
    case Obj(entries) =>
      forall i | 0 <= i < |entries|
        ensures NoProto(entries[i].1) && OrdersAgree(entries[i].1, RankThenName, ScriptKey)
      {
        PlainKeysSame(entries[i].1);
      }
      var s := Elements(Keys(entries));
      hide IntegerLike, Ascii;
      forall a, b | a in s && b in s
        ensures LexLess(RankThenName(a), RankThenName(b)) <==> LexLess(ScriptKey(a), ScriptKey(b))
      {
        var i :| 0 <= i < |entries| && Keys(entries)[i] == a;
        var j :| 0 <= j < |entries| && Keys(entries)[j] == b;
        PlainPair(a, b);
      }
      hide RankThenName, ScriptKey;
    case _ =>
  }

  lemma PlainPair(a: string, b: string)
    requires Ascii(a) && Ascii(b) && !IntegerLike(a) && !IntegerLike(b)
    ensures LexLess(RankThenName(a), RankThenName(b)) <==> LexLess(ScriptKey(a), ScriptKey(b))
  {
    AsciiImages(a);
    AsciiImages(b);
    assert RankThenUnits(a) == RankThenName(a) && RankThenUnits(b) == RankThenName(b);
    hide IntegerLike, RankThenUnits, RankThenName;
    PrefixedLess(1, RankThenUnits(a), RankThenUnits(b));
  }

  /**
   On plain keys the script gives the order by rank and name. A map that preserves insertion order
   always agrees with it, the default map exactly on the values whose keys rank and name order alike.
   */
  lemma VersionsAgreeOnPlainKeys(v: Json)
    requires WellFormed(v) && PlainKeys(v)
    ensures Rearrange(ScriptOrder, v) == Rearrange(MapOrder(true), v)
    ensures Rearrange(ScriptOrder, v) == Rearrange(MapOrder(false), v) <==> OrdersAgree(v, RankThenName, CodePoints)
  {
    PlainKeysSame(v);
    VersionsAgreeIff(true, v);
    FixedOrderKeptIff(v);
  }

  /** The versions differ on every object with two keys that the two orders compare differently. */
  lemma VersionsDifferOnPair(preserveOrder: bool, v: Json, a: string, b: string)
    requires WellFormed(v) && v.Obj? && a in Keys(v.entries) && b in Keys(v.entries)
    requires LexLess(MapKey(preserveOrder)(a), MapKey(preserveOrder)(b)) && !LexLess(ScriptKey(a), ScriptKey(b))
    ensures Rearrange(ScriptOrder, v) != Rearrange(MapOrder(preserveOrder), v)
  {
    hide Rearrange, MapKey, ScriptKey, LexLess;
    VersionsAgreeIff(preserveOrder, v);
    assert a in Elements(Keys(v.entries)) && b in Elements(Keys(v.entries));
    assert OrdersAgree(v, MapKey(preserveOrder), ScriptKey)
      ==> SameOrder(Elements(Keys(v.entries)), MapKey(preserveOrder), ScriptKey);
  }

  /** With the default map they differ on every object that has the keys ts and kind: the script keeps ts first. */
  lemma VersionsDifferOnTsAndKind(v: Json)
    requires WellFormed(v) && v.Obj? && "ts" in Keys(v.entries) && "kind" in Keys(v.entries)
    ensures Rearrange(ScriptOrder, v) != Rearrange(MapOrder(false), v)
  {
    KindBeforeTs();
    VersionsDifferOnPair(false, v, "kind", "ts");
  }

  lemma KindBeforeTs()
    ensures LexLess(CodePoints("kind"), CodePoints("ts")) && !LexLess(ScriptKey("kind"), ScriptKey("ts"))
  {
    var kind, ts := "kind", "ts";
    assert CodePoints(kind)[0] == 'k' as int && CodePoints(ts)[0] == 't' as int;
    assert !('0' <= kind[0] <= '9') && !('0' <= ts[0] <= '9');
    assert RankThenUnits(kind)[0] == 2 && RankThenUnits(ts)[0] == 1;
    hide Rank, Utf16, CodePoints;
    PrefixedLess(1, RankThenUnits(kind), RankThenUnits(ts));
  }

  /** So the crate with the default map and the script disagree on every Atomic. */
  lemma VersionsDifferOnAtomics(a: Atomic)
    requires WellFormed(a.data) && WellFormed(a.meta)
    ensures Rearrange(ScriptOrder, ToValue(a)) != Rearrange(MapOrder(false), ToValue(a))
  {
    AtomicWellFormed(a);
    AtomicKeys(a);
    assert FixedOrder()[1] == "ts" && FixedOrder()[2] == "kind";
    VersionsDifferOnTsAndKind(ToValue(a));
  }

  /** With insertion order preserved they differ on every object with a named key and an integer-like one. */
  lemma VersionsDifferOnIndex(v: Json, name: string, index: string)
    requires WellFormed(v) && v.Obj? && name in Keys(v.entries) && index in Keys(v.entries)
    requires Rank(name) < 9 && IntegerLike(index)
    ensures Rearrange(ScriptOrder, v) != Rearrange(MapOrder(true), v)
  {
    NameBeforeIndex(name, index);
    VersionsDifferOnPair(true, v, name, index);
  }

  lemma NameBeforeIndex(name: string, index: string)
    requires Rank(name) < 9 && IntegerLike(index)
    ensures LexLess(RankThenName(name), RankThenName(index)) && !LexLess(ScriptKey(name), ScriptKey(index))
  {
    assert '0' <= index[0] <= '9';
    assert Rank(index) == 9 && !IntegerLike(name);
    hide IntegerLike, Rank;
    assert RankThenName(name)[0] == Rank(name) && RankThenName(index)[0] == 9;
    assert ScriptKey(name)[0] == 1 && ScriptKey(index)[0] == 0;
  }

  /** With either map they differ on every object with two integer-like keys whose names sort against their values. */
  lemma VersionsDifferOnNumbers(preserveOrder: bool, v: Json, a: string, b: string)
    requires WellFormed(v) && v.Obj? && a in Keys(v.entries) && b in Keys(v.entries)
    requires IntegerLike(a) && IntegerLike(b) && LexLess(CodePoints(a), CodePoints(b)) && Decimal(a) > Decimal(b)
    ensures Rearrange(ScriptOrder, v) != Rearrange(MapOrder(preserveOrder), v)
  {
    NumbersPair(a, b);
    VersionsDifferOnPair(preserveOrder, v, a, b);
  }

  lemma NumbersPair(a: string, b: string)
    requires IntegerLike(a) && IntegerLike(b)
    ensures LexLess(RankThenName(a), RankThenName(b)) <==> LexLess(CodePoints(a), CodePoints(b))
    ensures LexLess(ScriptKey(a), ScriptKey(b)) <==> Decimal(a) < Decimal(b)
  {
    NumbersUnnamed(a);
    NumbersUnnamed(b);
    PrefixedLess(9, CodePoints(a), CodePoints(b));
    PairLess(Decimal(a), Decimal(b));
    hide LexLess, CodePoints, Rank, Decimal, IntegerLike;
  }

  lemma NumbersUnnamed(k: string)
    requires IntegerLike(k)
    ensures Rank(k) == 9
  {
    assert '0' <= k[0] <= '9';
  }

  lemma PairLess(m: int, n: int)
    ensures LexLess([0, m], [0, n]) <==> m < n
  {
    assert [0, m] == [0] + [m] && [0, n] == [0] + [n];
    PrefixedLess(0, [m], [n]);
    assert [m][1..] == [] && [n][1..] == [];
  }

  /** So are two other keys that code points and code units order differently. */
  lemma VersionsDifferOnUnits(preserveOrder: bool, v: Json, a: string, b: string)
    requires WellFormed(v) && v.Obj? && a in Keys(v.entries) && b in Keys(v.entries)
    requires Rank(a) == 9 == Rank(b) && !IntegerLike(a) && !IntegerLike(b)
    requires LexLess(CodePoints(a), CodePoints(b)) && !LexLess(Utf16(a), Utf16(b))
    ensures Rearrange(ScriptOrder, v) != Rearrange(MapOrder(preserveOrder), v)
  {
    UnnamedPair(a, b);
    VersionsDifferOnPair(preserveOrder, v, a, b);
  }

  lemma UnnamedPair(a: string, b: string)
    requires Rank(a) == 9 == Rank(b) && !IntegerLike(a) && !IntegerLike(b)
    ensures LexLess(RankThenName(a), RankThenName(b)) <==> LexLess(CodePoints(a), CodePoints(b))
    ensures LexLess(ScriptKey(a), ScriptKey(b)) <==> LexLess(Utf16(a), Utf16(b))
  {
    hide LexLess, IntegerLike, Rank, CodePoints, Utf16;
    PrefixedLess(9, CodePoints(a), CodePoints(b));
    PrefixedLess(9, Utf16(a), Utf16(b));
    PrefixedLess(1, RankThenUnits(a), RankThenUnits(b));
  }

  /** Such keys exist: beyond the basic plane, surrogates sort below the end of the basic plane. */
  lemma UnitsDiffer()
    ensures var a, b := "\U{FF61}", "\U{10000}"; LexLess(CodePoints(a), CodePoints(b)) && !LexLess(Utf16(a), Utf16(b))
  {
    var a, b := "\U{FF61}", "\U{10000}";
    assert CodePoints(a)[0] == 0xFF61 && CodePoints(b)[0] == 0x10000;
    assert Utf16(a)[0] == 0xFF61 && Utf16(b)[0] == 0xD800;
  }
}
