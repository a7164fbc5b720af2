/**
 The signing string of a link: keys sorted as JavaScript sorts them, at every depth, and no
 whitespace. Every signature and every content hash of the client is taken over such a string, so
 what matters is which values share one.
 */
module LinkSigning {
  import opened KeyOrder
  import opened Json
  import opened JsonText
  import opened JsonReader
  import opened Options

  function Join(parts: seq<string>, separator: string): string {
    if parts == [] then "" else if |parts| == 1 then parts[0]
    else parts[0] + separator + Join(parts[1..], separator)
  }

  function SortedKeys(keys: seq<string>): seq<string> {
    SortBy(keys, Utf16)
  }

  /** The printer: undefined prints as null even as the value of a key, which is kept. */
  function Canonicalize(v: Json): string
    decreases v
  {
    match v
    case Null => "null"
    case Undefined => "null"
    case Arr(items) =>
      "[" + Join(seq(|items|, i requires 0 <= i < |items| => Canonicalize(items[i])), ",") + "]"
    case Obj(entries) =>
      var ks := SortedKeys(Keys(entries));
      "{" + Join(seq(|ks|, i requires 0 <= i < |ks| =>
        var j := IndexOf(entries, ks[i]);
        Quote(ks[i]) + ":" + if j < |entries| then Canonicalize(entries[j].1) else "null"), ",") + "}"
    case _ => Print(v)
  }

  // ---------- Sorted keys are canonical ----------

  lemma SortedKeysCanonical()
    ensures SortsBy(SortedKeys, Utf16) && Canonical(SortedKeys)
  {
    forall ks | Distinct(ks) ensures StrictlySorted(SortedKeys(ks), Utf16) && Elements(SortedKeys(ks)) == Elements(ks) {
      Utf16Separates(Elements(ks));
      SortBySorted(ks, Utf16);
    }
    SortingIsCanonical(SortedKeys, Utf16);
  }

  // ---------- The printer prints the rearranged value ----------

  lemma {:induction false} JoinedItems(v: Json, parts: seq<string>, i: nat)
    requires v.Arr? && |parts| == |v.items| && i <= |parts|
    requires forall k :: 0 <= k < |parts| ==> parts[k] == Print(v.items[k])
    ensures PrintItems(v, i) == Join(parts[i..], ",")
    decreases |parts| - i
  {
    if i < |parts| {
      JoinedItems(v, parts, i + 1);
      assert parts[i..][1..] == parts[i + 1..];
    }
  }

  lemma {:induction false} JoinedEntries(v: Json, parts: seq<string>, i: nat)
    requires v.Obj? && |parts| == |v.entries| && i <= |parts|
    requires forall k :: 0 <= k < |parts| ==> parts[k] == Quote(v.entries[k].0) + ":" + Print(v.entries[k].1)
    ensures PrintEntries(v, i) == Join(parts[i..], ",")
    decreases |parts| - i
  {
    if i < |parts| {
      JoinedEntries(v, parts, i + 1);
      assert parts[i..][1..] == parts[i + 1..];
    }
  }

  /** Printing directly is the same as rearranging first and printing then. */
  lemma {:induction false} CanonicalizePrints(v: Json)
    requires WellFormed(v)
    ensures Canonicalize(v) == Print(Rearrange(SortedKeys, v))
    decreases v
  {
    match v
    case Arr(items) =>
      var parts := seq(|items|, i requires 0 <= i < |items| => Canonicalize(items[i]));
      var w := Rearrange(SortedKeys, v);
      forall k | 0 <= k < |parts| ensures parts[k] == Print(w.items[k]) {
        CanonicalizePrints(items[k]);
      }
      JoinedItems(w, parts, 0);
      assert parts[0..] == parts;
    case Obj(entries) =>
      CanonicalizePrintsObject(v);
    case _ =>
  }

  lemma {:induction false} CanonicalizePrintsObject(v: Json)
    requires WellFormed(v) && v.Obj?
    ensures Canonicalize(v) == Print(Rearrange(SortedKeys, v))
    decreases v, 0
  {
    var entries := v.entries;
    SortedKeysCanonical();
    RearrangedEntries(SortedKeys, entries);
    hide SortedKeys;
    var ks := SortedKeys(Keys(entries));
    var parts := seq(|ks|, i requires 0 <= i < |ks| =>
      var j := IndexOf(entries, ks[i]);
      Quote(ks[i]) + ":" + if j < |entries| then Canonicalize(entries[j].1) else "null");
    var w := Rearrange(SortedKeys, v);
    assert |w.entries| == |Keys(w.entries)| == |ks|;
    forall k | 0 <= k < |parts| ensures parts[k] == Quote(w.entries[k].0) + ":" + Print(w.entries[k].1) {
      CanonicalizePrints(entries[IndexOf(entries, ks[k])].1);
    }
    JoinedEntries(w, parts, 0);
    assert parts[0..] == parts;
  }

  // ---------- What a signing string identifies ----------

  /**
   Two values have the same signing string exactly when they are equal up to the order of object
   keys, at every depth, and up to undefined standing for null.
   */
  lemma SigningStringIdentifies(u: Json, v: Json)
    requires WellFormed(u) && WellFormed(v) && NumbersPrinted(u) && NumbersPrinted(v)
    ensures Canonicalize(u) == Canonicalize(v) <==> Equivalent(Fill(u), Fill(v))
  {
    CanonicalizePrints(u);
    CanonicalizePrints(v);
    SortedKeysCanonical();
    hide Canonicalize, Rearrange, Canonical, Equivalent, Fill, Print, NumbersPrinted, WellFormed;
    RearrangedTextIdentifies(SortedKeys, u, v);
  }

  // ---------- Links ----------

  /** The fields of a link; numbers are given by their printed text, an absent pact is Undefined. */
  datatype Link = Link(version: string, containerId: string, expectedSequence: string, previousHash: string,
                       atomHash: string, intentClass: string, physicsDelta: string, pact: Json, atom: Json)

  /** JavaScript's falsy JSON values; zero prints as 0. */
  predicate Falsy(v: Json) {
    v == Null || v == Undefined || v == Bool(false) || v == Num("0") || v == Str("")
  }

  function SignedPact(link: Link): Json {
    if Falsy(link.pact) then Null else link.pact
  }

  function SigningData(link: Link): Json {
    Obj([("version", Num(link.version)),
         ("container_id", Str(link.containerId)),
         ("expected_sequence", Num(link.expectedSequence)),
         ("previous_hash", Str(link.previousHash)),
         ("atom_hash", Str(link.atomHash)),
         ("intent_class", Str(link.intentClass)),
         ("physics_delta", Str(link.physicsDelta)),
         ("pact", SignedPact(link))])
  }

  ghost predicate Signable(link: Link) {
    NumberText(link.version) && NumberText(link.expectedSequence) && WellFormed(link.pact) && NumbersPrinted(link.pact)
  }

  lemma SigningDataFields(link: Link)
    requires Signable(link)
    ensures WellFormed(SigningData(link)) && NumbersPrinted(SigningData(link))
  {
    FieldNamesDistinct();
    assert WellFormed(SignedPact(link)) && NumbersPrinted(SignedPact(link));
    hide Distinct, SignedPact;
    var es := SigningData(link).entries;
    assert Keys(es) == FieldNames();
    assert es[7].1 == SignedPact(link);
    forall i | 0 <= i < 8 ensures WellFormed(es[i].1) && NumbersPrinted(es[i].1) {
    }
  }

  /** The pacts that count as none: null, absent, false, zero and the empty string. */
  function NoPacts(): seq<Json> {
    [Null, Undefined, Bool(false), Num("0"), Str("")]
  }

  /** The links that differ from this one in nothing a signature covers. */
  ghost predicate SameSigned(a: Link, b: Link) {
    && a.version == b.version && a.containerId == b.containerId && a.expectedSequence == b.expectedSequence
    && a.previousHash == b.previousHash && a.atomHash == b.atomHash && a.intentClass == b.intentClass
    && a.physicsDelta == b.physicsDelta
    && (if a.pact in NoPacts() then b.pact in NoPacts()
        else b.pact !in NoPacts() && Equivalent(Fill(a.pact), Fill(b.pact)))
  }

  /** A pact is signed as null if it counts as none, and as it is otherwise. */
  lemma SignedPactIs(link: Link)
    ensures SignedPact(link) == if link.pact in NoPacts() then Null else link.pact
    ensures link.pact.Obj? || link.pact.Arr? ==> link.pact !in NoPacts()
  {
    var ps := NoPacts();
    assert ps[0] == Null && ps[1] == Undefined && ps[2] == Bool(false) && ps[3] == Num("0") && ps[4] == Str("");
  }

  lemma SamePacts(a: Link, b: Link)
    ensures Equivalent(Fill(SignedPact(a)), Fill(SignedPact(b))) <==>
      if a.pact in NoPacts() then b.pact in NoPacts() else b.pact !in NoPacts() && Equivalent(Fill(a.pact), Fill(b.pact))
  {
    SignedPactIs(a);
    SignedPactIs(b);
    hide SignedPact;
    assert NoPacts()[0] == Null && NoPacts()[1] == Undefined;
    assert Null in NoPacts() && Undefined in NoPacts();
    NullAlone(a.pact);
    NullAlone(b.pact);
  }

  lemma NullAlone(v: Json)
    ensures Equivalent(Null, Fill(v)) || Equivalent(Fill(v), Null) ==> v == Null || v == Undefined
    ensures Equivalent(Null, Null) && Fill(Null) == Null
  {
  }

  /** Objects with the same keys in the same places are compared place by place. */
  lemma SameKeysEquivalent(us: seq<(string, Json)>, vs: seq<(string, Json)>)
    requires Keys(us) == Keys(vs) && Distinct(Keys(us))
    ensures Equivalent(Obj(us), Obj(vs)) <==> |us| == |vs| && forall i :: 0 <= i < |us| ==> Equivalent(us[i].1, vs[i].1)
  {
    assert |us| == |Keys(us)| == |Keys(vs)| == |vs|;
    forall i, j | 0 <= i < |us| && 0 <= j < |vs| && us[i].0 == vs[j].0 ensures i == j {
      assert Keys(us)[i] == Keys(us)[j];
    }
    forall i | 0 <= i < |us| ensures us[i].0 == vs[i].0 {
      assert Keys(us)[i] == Keys(vs)[i];
    }
  }

  function FieldNames(): seq<string> {
    ["version", "container_id", "expected_sequence", "previous_hash", "atom_hash", "intent_class", "physics_delta", "pact"]
  }

  lemma FieldNamesDistinct()
    ensures Distinct(FieldNames())
  {
    var ks := FieldNames();
    assert |ks[0]| == 7 && |ks[1]| == 12 && |ks[2]| == 17 && |ks[3]| == 13 && |ks[4]| == 9 && |ks[5]| == 12
        && |ks[6]| == 13 && |ks[7]| == 4;
    assert ks[1][0] == 'c' && ks[5][0] == 'i' && ks[3][1] == 'r' && ks[6][1] == 'h';
  }

  function FieldValues(link: Link): seq<Json> {
    [Num(link.version), Str(link.containerId), Num(link.expectedSequence), Str(link.previousHash), Str(link.atomHash),
     Str(link.intentClass), Str(link.physicsDelta), Fill(SignedPact(link))]
  }

  lemma FilledSigningData(link: Link)
    ensures Fill(SigningData(link)).Obj?
    ensures
      var es := Fill(SigningData(link)).entries;
      Keys(es) == FieldNames() && forall i :: 0 <= i < |es| ==> es[i].1 == FieldValues(link)[i]
  {
    hide SignedPact;
    var es := Fill(SigningData(link)).entries;
    assert |es| == 8;
    assert Keys(es) == FieldNames();
  }

  lemma SameValues(a: Link, b: Link)
    ensures SameSigned(a, b) <==> forall i :: 0 <= i < 8 ==> Equivalent(FieldValues(a)[i], FieldValues(b)[i])
  {
    var x, y := FieldValues(a), FieldValues(b);
    SamePacts(a, b);
    hide SignedPact, NoPacts, Fill;
    if forall i :: 0 <= i < 8 ==> Equivalent(x[i], y[i]) {
      assert Equivalent(x[0], y[0]) && Equivalent(x[1], y[1]) && Equivalent(x[2], y[2]) && Equivalent(x[3], y[3])
          && Equivalent(x[4], y[4]) && Equivalent(x[5], y[5]) && Equivalent(x[6], y[6]) && Equivalent(x[7], y[7]);
    }
  }

  lemma FieldsEquivalent(a: Link, b: Link)
    ensures Equivalent(Fill(SigningData(a)), Fill(SigningData(b))) <==> SameSigned(a, b)
  {
    FilledSigningData(a);
    FilledSigningData(b);
    FieldNamesDistinct();
    SameValues(a, b);
    hide SameSigned, Fill, SigningData, Equivalent, FieldValues, Distinct;
    var us, vs := Fill(SigningData(a)).entries, Fill(SigningData(b)).entries;
    assert |us| == |Keys(us)| == 8;
    SameKeysEquivalent(us, vs);
  }

  /** A signature covers exactly seven fields and the pact, and nothing of the atom itself. */
  lemma SignatureCovers(a: Link, b: Link)
    requires Signable(a) && Signable(b)
    ensures Canonicalize(SigningData(a)) == Canonicalize(SigningData(b)) <==> SameSigned(a, b)
  {
    SigningDataFields(a);
    SigningDataFields(b);
    FieldsEquivalent(a, b);
    hide SameSigned, Equivalent, Fill, Canonicalize, WellFormed, NumbersPrinted, SigningData;
    SigningStringIdentifies(SigningData(a), SigningData(b));
  }

  // ---------- What a reader finds in a signing string ----------

  /** The keys of a signing string, in their order. */
  function SignedOrder(): seq<string> {
    ["atom_hash", "container_id", "expected_sequence", "intent_class", "pact", "physics_delta", "previous_hash", "version"]
  }

  lemma AsciiLess(a: string, b: string)
    requires |a| >= 2 && |b| >= 2 && a[0] as int < 128 && b[0] as int < 128 && a[1] as int < 128 && b[1] as int < 128
    requires a[0] < b[0] || (a[0] == b[0] && a[1] < b[1])
    ensures LexLess(Utf16(a), Utf16(b))
  {
    var x, y := Utf16(a[1..]), Utf16(b[1..]);
    assert Utf16(a) == [a[0] as int] + x && Utf16(b) == [b[0] as int] + y;
    assert x == [a[1] as int] + Utf16(a[1..][1..]) && y == [b[1] as int] + Utf16(b[1..][1..]);
    assert Utf16(a)[1..] == x && Utf16(b)[1..] == y;
  }

  lemma SignedOrderSorted()
    ensures StrictlySorted(SignedOrder(), Utf16)
  {
    var ks := SignedOrder();
    assert ks[0][0] == 'a' && ks[1][0] == 'c' && ks[2][0] == 'e' && ks[3][0] == 'i' && ks[4][0] == 'p' && ks[5][0] == 'p'
        && ks[6][0] == 'p' && ks[7][0] == 'v';
    assert ks[4][1] == 'a' && ks[5][1] == 'h' && ks[6][1] == 'r' && ks[0][1] == 't' && ks[1][1] == 'o' && ks[2][1] == 'x'
        && ks[3][1] == 'n' && ks[7][1] == 'e';
    forall i, j | 0 <= i < j < |ks| ensures LexLess(Utf16(ks[i]), Utf16(ks[j])) {
      AsciiLess(ks[i], ks[j]);
    }
  }

  lemma SignedOrderIs()
    ensures SortedKeys(FieldNames()) == SignedOrder()
  {
    FieldNamesDistinct();
    SortedKeysCanonical();
    SignedOrderSorted();
    hide SortedKeys, StrictlySorted;
    var a, b := FieldNames(), SignedOrder();
    assert b[0] == a[4] && b[1] == a[1] && b[2] == a[2] && b[3] == a[5] && b[4] == a[7] && b[5] == a[6] && b[6] == a[3] && b[7] == a[0];
    assert Elements(a) == Elements(b);
    SortedUnique(SortedKeys(a), b, Utf16);
  }

  /** Reading an object with rearranged keys: the value of the key at each place. */
  lemma RearrangedAt(arrange: Arrangement, es: seq<(string, Json)>, i: nat, j: nat)
    requires Canonical(arrange) && Distinct(Keys(es)) && i < |arrange(Keys(es))| && j < |es|
    requires arrange(Keys(es))[i] == es[j].0
    ensures var o := Fill(Rearrange(arrange, Obj(es)));
      o.Obj? && |o.entries| == |arrange(Keys(es))| && o.entries[i] == (es[j].0, Fill(Rearrange(arrange, es[j].1)))
  {
    RearrangedEntries(arrange, es);
    KeyFound(es, j);
    hide Canonical, Distinct, IndexOf;
    var out := Rearrange(arrange, Obj(es)).entries;
    assert |out| == |Keys(out)| == |arrange(Keys(es))|;
  }

  lemma SignedAt(link: Link, i: nat, j: nat)
    requires i < 8 && j < 8 && SignedOrder()[i] == FieldNames()[j]
    ensures var es, o := SigningData(link).entries, Fill(Rearrange(SortedKeys, SigningData(link)));
      |es| == 8 && o.Obj? && |o.entries| == 8 && o.entries[i] == (SignedOrder()[i], Fill(Rearrange(SortedKeys, es[j].1)))
  {
    FieldNamesDistinct();
    SortedKeysCanonical();
    SignedOrderIs();
    DataKeys(link);
    var es := SigningData(link).entries;
    hide SortedKeys, Rearrange, Distinct, Canonical, SigningData, SortsBy, Fill;
    assert es[j].0 == Keys(es)[j];
    assert |SignedOrder()| == 8;
    RearrangedAt(SortedKeys, es, i, j);
  }

  lemma DataKeys(link: Link)
    ensures SigningData(link).Obj? && |SigningData(link).entries| == 8 && Keys(SigningData(link).entries) == FieldNames()
  {
    hide SignedPact;
  }

  lemma DataValues(link: Link)
    ensures var es := SigningData(link).entries;
      && |es| == 8 && es[0].1 == Num(link.version) && es[1].1 == Str(link.containerId) && es[2].1 == Num(link.expectedSequence)
      && es[3].1 == Str(link.previousHash) && es[4].1 == Str(link.atomHash) && es[5].1 == Str(link.intentClass)
      && es[6].1 == Str(link.physicsDelta) && es[7].1 == SignedPact(link)
  {
    hide SignedPact;
  }

  lemma LeafReads(arrange: Arrangement, v: Json)
    requires v.Str? || v.Num?
    ensures Fill(Rearrange(arrange, v)) == v
  {
  }

  /** A reader of any signing string finds the value that was signed, its keys sorted at every depth. */
  lemma CanonicalReads(v: Json)
    requires WellFormed(v) && NumbersPrinted(v)
    ensures ReadValue(Canonicalize(v)) == Some((Fill(Rearrange(SortedKeys, v)), ""))
  {
    SortedKeysCanonical();
    CanonicalizePrints(v);
    NumbersRearranged(SortedKeys, v);
    hide Canonicalize, Rearrange, Canonical, WellFormed, NumbersPrinted, SortsBy, Print, ReadValue, Fill;
    ReadsBack(Rearrange(SortedKeys, v), "");
    assert Print(Rearrange(SortedKeys, v)) + "" == Print(Rearrange(SortedKeys, v));
  }

  /**
   A reader of the signing string finds an object with exactly these keys in this order, and at each key
   the field of that name; at the key pact null for the pacts that count as none, and the pact up to the
   order of its keys otherwise.
   */
  lemma SigningStringReads(link: Link) returns (o: Json)
    requires Signable(link)
    ensures ReadValue(Canonicalize(SigningData(link))) == Some((o, "")) && o.Obj? && Keys(o.entries) == SignedOrder()
    ensures |o.entries| == 8
    ensures o.entries[0].1 == Str(link.atomHash) && o.entries[1].1 == Str(link.containerId)
    ensures o.entries[2].1 == Num(link.expectedSequence) && o.entries[3].1 == Str(link.intentClass)
    ensures o.entries[5].1 == Str(link.physicsDelta) && o.entries[6].1 == Str(link.previousHash)
    ensures o.entries[7].1 == Num(link.version)
    ensures if link.pact in NoPacts() then o.entries[4].1 == Null else Equivalent(o.entries[4].1, Fill(link.pact))
  {
    o := Fill(Rearrange(SortedKeys, SigningData(link)));
    SigningDataFields(link);
    SortedEntries(link);
    PactReads(link);
    hide Canonicalize, Rearrange, SigningData, WellFormed, NumbersPrinted, Signable, NoPacts, SignedOrder, SortedKeys, ReadValue, Fill,
      SignedPact;
    CanonicalReads(SigningData(link));
  }

  lemma SortedEntries(link: Link)
    requires Signable(link)
    ensures
      var o := Fill(Rearrange(SortedKeys, SigningData(link)));
      && o.Obj? && |o.entries| == 8 && Keys(o.entries) == SignedOrder()
      && o.entries[0].1 == Str(link.atomHash) && o.entries[1].1 == Str(link.containerId)
      && o.entries[2].1 == Num(link.expectedSequence) && o.entries[3].1 == Str(link.intentClass)
      && o.entries[4].1 == Fill(Rearrange(SortedKeys, SignedPact(link)))
      && o.entries[5].1 == Str(link.physicsDelta) && o.entries[6].1 == Str(link.previousHash)
      && o.entries[7].1 == Num(link.version)
  {
    hide SortedKeys, SignedPact, Rearrange, Fill, SigningData;
    DataKeys(link);
    DataValues(link);
    SignedAt(link, 0, 4);
    var es, o := SigningData(link).entries, Fill(Rearrange(SortedKeys, SigningData(link)));
    forall j | 0 <= j < 7 ensures Fill(Rearrange(SortedKeys, es[j].1)) == es[j].1 {
      assert es[j].1.Str? || es[j].1.Num?;
      LeafReads(SortedKeys, es[j].1);
    }
    SignedAt(link, 1, 1);
    SignedAt(link, 2, 2);
    SignedAt(link, 3, 5);
    SignedAt(link, 4, 7);
    SignedAt(link, 5, 6);
    SignedAt(link, 6, 3);
    SignedAt(link, 7, 0);
    assert |SignedOrder()| == 8;
    assert Keys(o.entries) == SignedOrder();
  }

  lemma PactReads(link: Link)
    requires Signable(link)
    ensures
      var p := Fill(Rearrange(SortedKeys, SignedPact(link)));
      if link.pact in NoPacts() then p == Null else Equivalent(p, Fill(link.pact))
  {
    SignedPactIs(link);
    SortedKeysCanonical();
    hide SignedPact, NoPacts, SortedKeys, Canonical;
    if link.pact !in NoPacts() {
      FillRearranged(SortedKeys, link.pact);
      FillWellFormed(link.pact);
      RearrangeLossless(SortedKeys, Fill(link.pact));
    }
  }
}
