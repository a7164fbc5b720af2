/**
 What a reader finds in the canonical bytes of an Atomic: the order of its keys, and under each key the
 field of that name.
 */
module AtomicText {
  import opened KeyOrder
  import opened Json
  import opened JsonText
  import opened JsonReader
  import opened AtomicCanonical
  import opened Options

  /** The value of an object at a key. */
  function Lookup(o: Json, k: string): Option<Json> {
    if o.Obj? && IndexOf(o.entries, k) < |o.entries| then Some(o.entries[IndexOf(o.entries, k)].1) else None
  }

  lemma LookupAt(es: seq<(string, Json)>, j: nat)
    requires Distinct(Keys(es)) && j < |es|
    ensures Lookup(Obj(es), es[j].0) == Some(es[j].1)
  {
    KeyFound(es, j);
  }

  /** Objects equal up to the order of keys have equivalent values at every key, and lack the same keys. */
  lemma LookupEquivalent(u: Json, v: Json, k: string)
    requires u.Obj? && v.Obj? && Equivalent(u, v)
    ensures Lookup(v, k) == None <==> Lookup(u, k) == None
    ensures Lookup(v, k) != None ==> Equivalent(Lookup(u, k).value, Lookup(v, k).value)
  {
    KeyListed(u, k);
    KeyListed(v, k);
    hide IndexOf;
  }

  lemma KeyListed(o: Json, k: string)
    requires o.Obj?
    ensures k in Elements(Keys(o.entries)) <==> IndexOf(o.entries, k) < |o.entries|
  {
    var i := IndexOf(o.entries, k);
    if i < |o.entries| {
      assert Keys(o.entries)[i] == k;
    }
  }

  lemma LeafEquivalent(u: Json, s: string)
    ensures Equivalent(u, Str(s)) ==> u == Str(s)
    ensures Equivalent(u, Null) ==> u == Null
  {
  }

  // ---------- Canonical bytes read back ----------

  /** A reader of canonical bytes finds the rearranged value. */
  lemma CanonicalBytesRead(preserveOrder: bool, v: Json)
    requires WellFormed(v) && NumbersPrinted(v)
    ensures ReadValue(Print(Rearrange(MapOrder(preserveOrder), v))) == Some((Fill(Rearrange(MapOrder(preserveOrder), v)), ""))
  {
    var order := MapOrder(preserveOrder);
    MapOrderSorts(preserveOrder);
    hide MapOrder, Rearrange, Canonical, WellFormed, NumbersPrinted, SortsBy, Print, ReadValue, Fill;
    SortedIsCanonical(preserveOrder);
    NumbersRearranged(order, v);
    ReadsBack(Rearrange(order, v), "");
    assert Print(Rearrange(order, v)) + "" == Print(Rearrange(order, v));
  }

  lemma SortedIsCanonical(preserveOrder: bool)
    ensures Canonical(MapOrder(preserveOrder))
  {
    MapOrderSorts(preserveOrder);
    SortingIsCanonical(MapOrder(preserveOrder), if preserveOrder then RankThenName else CodePoints);
  }

  // ---------- The fields of an Atomic ----------

  predicate AreTexts(v: Json, texts: seq<string>) {
    v.Arr? && |v.items| == |texts| && forall i :: 0 <= i < |texts| ==> v.items[i] == Str(texts[i])
  }

  predicate HasText(o: Json, k: string, text: Option<string>) {
    Lookup(o, k) == if text == None then None else Some(Str(text.value))
  }

  /** Each field stands at its own name; optional fields that are absent have no key. */
  ghost predicate HasFields(o: Json, a: Atomic) {
    && HasText(o, "id", Some(a.id)) && HasText(o, "ts", Some(a.ts)) && HasText(o, "kind", Some(a.kind))
    && HasText(o, "actor", Some(a.actor))
    && Lookup(o, "refs").Some? && AreTexts(Lookup(o, "refs").value, a.refs)
    && Lookup(o, "data").Some? && Equivalent(Lookup(o, "data").value, Fill(a.data))
    && Lookup(o, "meta").Some? && Equivalent(Lookup(o, "meta").value, Fill(a.meta))
    && Lookup(o, "scope").Some? && HasScope(Lookup(o, "scope").value, a.scope)
    && Lookup(o, "sig").Some? && HasSignature(Lookup(o, "sig").value, a.sig)
  }

  predicate HasScope(o: Json, s: Scope) {
    && HasText(o, "tenant", Some(s.tenant)) && HasText(o, "entity", s.entity) && HasText(o, "room", s.room)
    && HasText(o, "container", s.container)
  }

  predicate HasSignature(o: Json, sig: Option<Signature>) {
    if sig == None then o == Null
    else HasText(o, "value", Some(sig.value.value)) && HasText(o, "kid", Some(sig.value.kid)) && HasText(o, "alg", Some(sig.value.alg))
  }

  lemma TextEquivalent(u: Json, v: Json, k: string, text: Option<string>)
    requires u.Obj? && v.Obj? && Equivalent(u, v) && HasText(v, k, text)
    ensures HasText(u, k, text)
  {
    LookupEquivalent(u, v, k);
    hide Lookup, Equivalent;
    if text != None {
      LeafEquivalent(Lookup(u, k).value, text.value);
    }
  }

  lemma ScopeNames()
    ensures |"tenant"| == 6 && |"entity"| == 6 && |"room"| == 4 && |"container"| == 9 && "tenant"[0] == 't' && "entity"[0] == 'e'
  {
  }

  lemma ScopeFields(s: Scope)
    ensures ScopeValue(s).Obj? && Fill(ScopeValue(s)) == ScopeValue(s) && HasScope(ScopeValue(s), s)
  {
    ScopeFilled(s);
    ScopeNames();
    var tenant, entity, room, container := [("tenant", Str(s.tenant))], Field("entity", s.entity), Field("room", s.room),
      Field("container", s.container);
    FieldNamed("entity", s.entity);
    FieldNamed("room", s.room);
    FieldNamed("container", s.container);
    FieldNamed("tenant", Some(s.tenant));
    assert tenant == Field("tenant", Some(s.tenant));
    hide Field, HasText, Fill;
    FieldFound([], "tenant", Some(s.tenant), entity + room + container);
    FieldFound(tenant, "entity", s.entity, room + container);
    FieldFound(tenant + entity, "room", s.room, container);
    FieldFound(tenant + entity + room, "container", s.container, []);
    SameParts(tenant, entity, room, container);
  }

  lemma SameParts(a: seq<(string, Json)>, b: seq<(string, Json)>, c: seq<(string, Json)>, d: seq<(string, Json)>)
    ensures var es := a + b + c + d;
      [] + a + (b + c + d) == es && a + b + (c + d) == es && a + b + c + d + [] == es
  {
  }

  lemma FieldNamed(name: string, value: Option<string>)
    ensures forall i :: 0 <= i < |Field(name, value)| ==> Field(name, value)[i].0 == name
  {
  }

  lemma ScopeFilled(s: Scope)
    ensures Fill(ScopeValue(s)) == ScopeValue(s)
  {
    var es := ScopeValue(s).entries;
    assert forall i :: 0 <= i < |es| ==> es[i].1.Str?;
    assert Fill(ScopeValue(s)).entries == es;
  }

  lemma EntryNamed(es: seq<(string, Json)>, n: nat, name: string)
    requires n < |es| && es[n].0 == name && forall j :: 0 <= j < |es| && j != n ==> es[j].0 != name
    ensures IndexOf(es, name) == n
  {
    assert Keys(es)[n] == name;
  }

  lemma NotNamed(es: seq<(string, Json)>, name: string)
    requires forall j :: 0 <= j < |es| ==> es[j].0 != name
    ensures IndexOf(es, name) == |es|
  {
  }

  /** An optional field is found if no other entry has its name. */
  lemma FieldFound(front: seq<(string, Json)>, name: string, value: Option<string>, back: seq<(string, Json)>)
    requires (forall i :: 0 <= i < |front| ==> front[i].0 != name) && (forall i :: 0 <= i < |back| ==> back[i].0 != name)
    ensures HasText(Obj(front + Field(name, value) + back), name, value)
  {
    var es := front + Field(name, value) + back;
    hide IndexOf;
    if value == None {
      assert es == front + back;
      NotNamed(es, name);
    } else {
      assert es == front + [(name, Str(value.value))] + back;
      EntryNamed(es, |front|, name);
    }
  }

  lemma SignatureFields(sig: Option<Signature>)
    ensures Fill(SignatureValue(sig)) == SignatureValue(sig) && HasSignature(SignatureValue(sig), sig)
    ensures sig != None ==> SignatureValue(sig).Obj?
  {
    if sig != None {
      var es := SignatureValue(sig).entries;
      SignatureWellFormed(sig);
      LookupAt(es, 0);
      LookupAt(es, 1);
      LookupAt(es, 2);
      assert Fill(SignatureValue(sig)).entries == es;
    }
  }

  lemma ScopeEquivalent(o: Json, s: Scope)
    requires Equivalent(o, ScopeValue(s))
    ensures HasScope(o, s)
  {
    ScopeFields(s);
    hide ScopeValue, HasText;
    assert o.Obj?;
    hide Equivalent;
    TextEquivalent(o, ScopeValue(s), "tenant", Some(s.tenant));
    TextEquivalent(o, ScopeValue(s), "entity", s.entity);
    TextEquivalent(o, ScopeValue(s), "room", s.room);
    TextEquivalent(o, ScopeValue(s), "container", s.container);
  }

  lemma SignatureEquivalent(o: Json, sig: Option<Signature>)
    requires Equivalent(o, SignatureValue(sig))
    ensures HasSignature(o, sig)
  {
    SignatureFields(sig);
    if sig == None {
      LeafEquivalent(o, "");
    } else {
      hide SignatureValue, HasText;
      assert o.Obj?;
      hide Equivalent;
      TextEquivalent(o, SignatureValue(sig), "value", Some(sig.value.value));
      TextEquivalent(o, SignatureValue(sig), "kid", Some(sig.value.kid));
      TextEquivalent(o, SignatureValue(sig), "alg", Some(sig.value.alg));
    }
  }

  lemma TextsEquivalent(u: Json, v: Json, texts: seq<string>)
    requires Equivalent(u, v) && AreTexts(v, texts)
    ensures AreTexts(u, texts)
  {
    forall i | 0 <= i < |texts| ensures u.items[i] == Str(texts[i]) {
      LeafEquivalent(u.items[i], texts[i]);
    }
  }

  lemma AtomicValues(a: Atomic)
    ensures ToValue(a).Obj?
    ensures
      var es := ToValue(a).entries;
      && |es| == 9 && Keys(es) == FixedOrder()
      && es[0].1 == Str(a.id) && es[1].1 == Str(a.ts) && es[2].1 == Str(a.kind) && es[3].1 == ScopeValue(a.scope)
      && es[4].1 == Str(a.actor) && AreTexts(es[5].1, a.refs) && es[6].1 == a.data && es[7].1 == a.meta
      && es[8].1 == SignatureValue(a.sig)
  {
    hide ScopeValue, SignatureValue;
    AtomicKeys(a);
  }

  lemma EntriesFilled(v: Json)
    requires v.Obj?
    ensures
      var es, fs := v.entries, Fill(v).entries;
      |fs| == |es| && Keys(fs) == Keys(es) && forall i :: 0 <= i < |es| ==> fs[i].1 == Fill(es[i].1)
  {
  }

  lemma TextFilled(text: string)
    ensures Fill(Str(text)) == Str(text)
  {
  }

  lemma TextsFilled(v: Json, texts: seq<string>)
    requires AreTexts(v, texts)
    ensures AreTexts(Fill(v), texts)
  {
  }

  /** The filled value of an Atomic, entry by entry. */
  lemma FilledAtomic(a: Atomic)
    ensures
      var es := Fill(ToValue(a)).entries;
      && |es| == 9 && Keys(es) == FixedOrder()
      && es[0].1 == Str(a.id) && es[1].1 == Str(a.ts) && es[2].1 == Str(a.kind) && es[3].1 == ScopeValue(a.scope)
      && es[4].1 == Str(a.actor) && AreTexts(es[5].1, a.refs) && es[6].1 == Fill(a.data) && es[7].1 == Fill(a.meta)
      && es[8].1 == SignatureValue(a.sig)
  {
    ScopeFields(a.scope);
    SignatureFields(a.sig);
    AtomicValues(a);
    hide ScopeValue, SignatureValue, HasScope, HasSignature, ToValue, Fill, AreTexts, Keys;
    EntriesFilled(ToValue(a));
    TextFilled(a.id);
    TextFilled(a.ts);
    TextFilled(a.kind);
    TextFilled(a.actor);
    TextsFilled(ToValue(a).entries[5].1, a.refs);
  }

  lemma FieldAt(o: Json, es: seq<(string, Json)>, j: nat)
    requires o.Obj? && Equivalent(o, Obj(es)) && Distinct(Keys(es)) && j < |es|
    ensures Lookup(o, es[j].0).Some? && Equivalent(Lookup(o, es[j].0).value, es[j].1)
  {
    LookupAt(es, j);
    hide Lookup, Equivalent, Distinct;
    LookupEquivalent(o, Obj(es), es[j].0);
  }

  lemma FieldOf(o: Json, a: Atomic, j: nat)
    requires o.Obj? && Equivalent(o, Fill(ToValue(a))) && j < 9
    ensures Fill(ToValue(a)).Obj? && |Fill(ToValue(a)).entries| == 9
    ensures Lookup(o, FixedOrder()[j]).Some?
    ensures Equivalent(Lookup(o, FixedOrder()[j]).value, Fill(ToValue(a)).entries[j].1)
  {
    FilledAtomic(a);
    FixedOrderDistinct();
    assert Fill(ToValue(a)).Obj?;
    var es := Fill(ToValue(a)).entries;
    assert es[j].0 == Keys(es)[j];
    hide Equivalent, Fill, ToValue, Lookup, Distinct, ScopeValue, SignatureValue, Keys;
    FieldAt(o, es, j);
  }

  lemma TextOf(o: Json, k: string, text: string)
    requires Lookup(o, k).Some? && Equivalent(Lookup(o, k).value, Str(text))
    ensures HasText(o, k, Some(text))
  {
    hide Lookup;
    LeafEquivalent(Lookup(o, k).value, text);
  }

  lemma TextFields(o: Json, a: Atomic)
    requires o.Obj? && Equivalent(o, Fill(ToValue(a)))
    ensures HasText(o, "id", Some(a.id)) && HasText(o, "ts", Some(a.ts)) && HasText(o, "kind", Some(a.kind))
    ensures HasText(o, "actor", Some(a.actor))
  {
    FilledAtomic(a);
    hide Equivalent, Fill, ToValue, Lookup, HasText, ScopeValue, SignatureValue;
    FieldOf(o, a, 0);
    FieldOf(o, a, 1);
    FieldOf(o, a, 2);
    FieldOf(o, a, 4);
    TextOf(o, "id", a.id);
    TextOf(o, "ts", a.ts);
    TextOf(o, "kind", a.kind);
    TextOf(o, "actor", a.actor);
  }

  lemma OtherFields(o: Json, a: Atomic)
    requires o.Obj? && Equivalent(o, Fill(ToValue(a)))
    ensures Lookup(o, "refs").Some? && AreTexts(Lookup(o, "refs").value, a.refs)
    ensures Lookup(o, "data").Some? && Equivalent(Lookup(o, "data").value, Fill(a.data))
    ensures Lookup(o, "meta").Some? && Equivalent(Lookup(o, "meta").value, Fill(a.meta))
    ensures Lookup(o, "scope").Some? && HasScope(Lookup(o, "scope").value, a.scope)
    ensures Lookup(o, "sig").Some? && HasSignature(Lookup(o, "sig").value, a.sig)
  {
    FilledAtomic(a);
    hide Equivalent, Fill, ToValue, Lookup, ScopeValue, SignatureValue, HasScope, HasSignature, AreTexts;
    FieldOf(o, a, 3);
    FieldOf(o, a, 5);
    FieldOf(o, a, 6);
    FieldOf(o, a, 7);
    FieldOf(o, a, 8);
    ScopeEquivalent(Lookup(o, "scope").value, a.scope);
    TextsEquivalent(Lookup(o, "refs").value, Fill(ToValue(a)).entries[5].1, a.refs);
    SignatureEquivalent(Lookup(o, "sig").value, a.sig);
  }

  lemma FieldsEquivalent(o: Json, a: Atomic)
    requires o.Obj? && Equivalent(o, Fill(ToValue(a)))
    ensures HasFields(o, a)
  {
    hide Equivalent, Fill, ToValue, Lookup, HasText, HasScope, HasSignature, AreTexts;
    TextFields(o, a);
    OtherFields(o, a);
  }

  /**
   A reader of the canonical bytes of an Atomic finds each field at its name, whichever map is built: in
   the fixed order under the insertion-ordered map, by name under the default one.
   */
  lemma AtomicReads(preserveOrder: bool, a: Atomic) returns (o: Json)
    requires WellFormed(a.data) && WellFormed(a.meta) && NumbersPrinted(a.data) && NumbersPrinted(a.meta)
    ensures ReadValue(Print(Rearrange(MapOrder(preserveOrder), ToValue(a)))) == Some((o, ""))
    ensures o.Obj? && HasFields(o, a)
    ensures Keys(o.entries) ==
      if preserveOrder then ["id", "ts", "kind", "scope", "actor", "refs", "data", "meta", "sig"]
      else ["actor", "data", "id", "kind", "meta", "refs", "scope", "sig", "ts"]
  {
    var v, order := ToValue(a), MapOrder(preserveOrder);
    o := Fill(Rearrange(order, v));
    AtomicWellFormed(a);
    AtomicNumbers(a);
    AtomicOrders(a);
    assert Rearrange(order, v).Obj?;
    KeysFilled(Rearrange(order, v));
    hide MapOrder, Rearrange, Fill, ToValue, Print, ReadValue, WellFormed, NumbersPrinted, HasFields, Canonical, Equivalent, Keys;
    CanonicalBytesRead(preserveOrder, v);
    SortedIsCanonical(preserveOrder);
    FillRearranged(order, v);
    FillWellFormed(v);
    RearrangeLossless(order, Fill(v));
    FieldsEquivalent(o, a);
  }

  lemma KeysFilled(v: Json)
    requires v.Obj?
    ensures Fill(v).Obj? && Keys(Fill(v).entries) == Keys(v.entries)
  {
  }

  lemma AtomicNumbers(a: Atomic)
    requires NumbersPrinted(a.data) && NumbersPrinted(a.meta)
    ensures NumbersPrinted(ToValue(a))
  {
    AtomicValues(a);
    ScopeNumbers(a.scope);
    SignatureNumbers(a.sig);
    var es := ToValue(a).entries;
    TextsNumbers(es[5].1, a.refs);
    hide ScopeValue, SignatureValue, ToValue, AreTexts, Keys;
    forall i | 0 <= i < |es| ensures NumbersPrinted(es[i].1) {
    }
  }

  lemma ScopeNumbers(s: Scope)
    ensures NumbersPrinted(ScopeValue(s))
  {
    var es := ScopeValue(s).entries;
    assert forall i :: 0 <= i < |es| ==> es[i].1.Str?;
  }

  lemma SignatureNumbers(sig: Option<Signature>)
    ensures NumbersPrinted(SignatureValue(sig))
  {
  }

  lemma TextsNumbers(v: Json, texts: seq<string>)
    requires AreTexts(v, texts)
    ensures NumbersPrinted(v)
  {
  }
}
