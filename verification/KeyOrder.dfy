/**
 Orders on object keys: lexicographic order of a numeric image of the key, sorting by it, and the
 fact that a strictly sorted list is determined by its elements.
 */
module KeyOrder {

  predicate LexLess(a: seq<int>, b: seq<int>) {
    if b == [] then false
    else if a == [] then true
    else a[0] < b[0] || (a[0] == b[0] && LexLess(a[1..], b[1..]))
  }

  lemma {:induction false} LexTotal(a: seq<int>, b: seq<int>)
    ensures LexLess(a, b) || a == b || LexLess(b, a)
    ensures !(LexLess(a, b) && LexLess(b, a)) && !LexLess(a, a)
  {
    if a != [] && b != [] {
      LexTotal(a[1..], b[1..]);
      assert a == [a[0]] + a[1..] && b == [b[0]] + b[1..];
    }
    if a != [] {
      LexIrreflexive(a);
    }
  }

  lemma {:induction false} LexIrreflexive(a: seq<int>)
    ensures !LexLess(a, a)
  {
    if a != [] {
      LexIrreflexive(a[1..]);
    }
  }

  lemma {:induction false} LexTransitive(a: seq<int>, b: seq<int>, c: seq<int>)
    requires LexLess(a, b) && LexLess(b, c)
    ensures LexLess(a, c)
  {
    if a != [] && a[0] == b[0] == c[0] {
      LexTransitive(a[1..], b[1..], c[1..]);
    }
  }

  // ---------- Sorting keys ----------

  ghost predicate StrictlySorted(keys: seq<string>, f: string -> seq<int>) {
    forall i, j :: 0 <= i < j < |keys| ==> LexLess(f(keys[i]), f(keys[j]))
  }

  predicate Distinct(keys: seq<string>) {
    forall i, j :: 0 <= i < j < |keys| ==> keys[i] != keys[j]
  }

  function Elements(keys: seq<string>): set<string> {
    set k | k in keys
  }

  function Insert(k: string, keys: seq<string>, f: string -> seq<int>): seq<string> {
    if keys == [] || LexLess(f(k), f(keys[0])) then [k] + keys else [keys[0]] + Insert(k, keys[1..], f)
  }

  function SortBy(keys: seq<string>, f: string -> seq<int>): seq<string> {
    if keys == [] then [] else Insert(keys[0], SortBy(keys[1..], f), f)
  }

  /** Different keys of the set have different images. */
  ghost predicate InjectiveOn(s: set<string>, f: string -> seq<int>) {
    forall a, b :: a in s && b in s && f(a) == f(b) ==> a == b
  }

  lemma PrefixSorted(k: string, keys: seq<string>, f: string -> seq<int>)
    requires StrictlySorted(keys, f) && forall j :: 0 <= j < |keys| ==> LexLess(f(k), f(keys[j]))
    ensures StrictlySorted([k] + keys, f) && Elements([k] + keys) == Elements(keys) + {k}
  {
    hide LexLess;
    var all := [k] + keys;
    forall i, j | 0 <= i < j < |all| ensures LexLess(f(all[i]), f(all[j])) {
      assert all[j] == keys[j - 1];
    }
  }

  lemma BelowAll(k: string, keys: seq<string>, f: string -> seq<int>)
    requires StrictlySorted(keys, f) && keys != [] && LexLess(f(k), f(keys[0]))
    ensures forall j :: 0 <= j < |keys| ==> LexLess(f(k), f(keys[j]))
  {
    hide LexLess;
    forall j | 0 < j < |keys| ensures LexLess(f(k), f(keys[j])) {
      LexTransitive(f(k), f(keys[0]), f(keys[j]));
    }
  }

  lemma {:induction false} InsertSorted(k: string, keys: seq<string>, f: string -> seq<int>)
    requires StrictlySorted(keys, f) && forall i :: 0 <= i < |keys| ==> f(keys[i]) != f(k)
    ensures StrictlySorted(Insert(k, keys, f), f) && Elements(Insert(k, keys, f)) == Elements(keys) + {k}
  {
    hide LexLess;
    if keys == [] {
      PrefixSorted(k, keys, f);
    } else if LexLess(f(k), f(keys[0])) {
      BelowAll(k, keys, f);
      PrefixSorted(k, keys, f);
    } else {
      LexTotal(f(k), f(keys[0]));
      InsertSorted(k, keys[1..], f);
      var rest := Insert(k, keys[1..], f);
      forall j | 0 <= j < |rest| ensures LexLess(f(keys[0]), f(rest[j])) {
        assert rest[j] in Elements(rest);
      }
      PrefixSorted(keys[0], rest, f);
      assert keys == [keys[0]] + keys[1..];
    }
  }

  lemma {:induction false} SortBySorted(keys: seq<string>, f: string -> seq<int>)
    requires Distinct(keys) && InjectiveOn(Elements(keys), f)
    ensures StrictlySorted(SortBy(keys, f), f) && Elements(SortBy(keys, f)) == Elements(keys)
  {
    if keys != [] {
      var tail := keys[1..];
      assert keys == [keys[0]] + tail;
      assert Elements(keys) == Elements(tail) + {keys[0]};
      SortBySorted(tail, f);
      var sorted := SortBy(tail, f);
      forall i | 0 <= i < |sorted| ensures f(sorted[i]) != f(keys[0]) {
        assert sorted[i] in Elements(tail);
        assert sorted[i] in Elements(keys) && keys[0] in Elements(keys);
      }
      InsertSorted(keys[0], sorted, f);
    }
  }

  lemma SortedIsDistinct(keys: seq<string>, f: string -> seq<int>)
    requires StrictlySorted(keys, f)
    ensures Distinct(keys)
  {
    forall i, j | 0 <= i < j < |keys| ensures keys[i] != keys[j] {
      LexIrreflexive(f(keys[i]));
    }
  }

  /** The head of a strictly sorted list is below every other element. */
  lemma HeadIsLeast(a: seq<string>, f: string -> seq<int>, k: string)
    requires StrictlySorted(a, f) && k in a
    ensures k == a[0] || LexLess(f(a[0]), f(k))
  {
    var i :| 0 <= i < |a| && a[i] == k;
  }

  /** A strictly sorted list is determined by its set of elements. */
  lemma {:induction false} SortedUnique(a: seq<string>, b: seq<string>, f: string -> seq<int>)
    requires StrictlySorted(a, f) && StrictlySorted(b, f) && Elements(a) == Elements(b)
    ensures a == b
  {
    assert a != [] ==> a[0] in Elements(b);
    assert b != [] ==> b[0] in Elements(a);
    if a != [] && b != [] {
      HeadIsLeast(a, f, b[0]);
      HeadIsLeast(b, f, a[0]);
      LexTotal(f(a[0]), f(b[0]));
      SortedIsDistinct(a, f);
      SortedIsDistinct(b, f);
      TailElements(a);
      TailElements(b);
      SortedUnique(a[1..], b[1..], f);
      assert a == [a[0]] + a[1..] && b == [b[0]] + b[1..];
    }
  }

  lemma TailElements(a: seq<string>)
    requires a != [] && Distinct(a)
    ensures Elements(a[1..]) == Elements(a) - {a[0]}
  {
    assert a == [a[0]] + a[1..];
  }

  /** Both images order every pair of the keys the same way. */
  ghost predicate SameOrder(s: set<string>, f: string -> seq<int>, g: string -> seq<int>) {
    forall a, b :: a in s && b in s ==> (LexLess(f(a), f(b)) <==> LexLess(g(a), g(b)))
  }

  /** The same elements sorted by two images make the same list exactly when the images order them alike. */
  lemma SortedAgree(a: seq<string>, b: seq<string>, f: string -> seq<int>, g: string -> seq<int>)
    requires StrictlySorted(a, f) && StrictlySorted(b, g) && Elements(a) == Elements(b)
    ensures a == b <==> SameOrder(Elements(a), f, g)
  {
    if a == b {
      forall x, y | x in Elements(a) && y in Elements(a) ensures LexLess(f(x), f(y)) <==> LexLess(g(x), g(y)) {
        PositionsDecide(a, f, x, y);
        PositionsDecide(a, g, x, y);
      }
    }
    if SameOrder(Elements(a), f, g) {
      forall i, j | 0 <= i < j < |a| ensures LexLess(g(a[i]), g(a[j])) {
        assert a[i] in Elements(a) && a[j] in Elements(a);
      }
      SortedUnique(a, b, g);
    }
  }

  /** In a sorted list, one element is less than another exactly when it stands before it. */
  lemma PositionsDecide(a: seq<string>, f: string -> seq<int>, x: string, y: string)
    requires StrictlySorted(a, f) && x in a && y in a
    ensures LexLess(f(x), f(y)) <==> exists i, j :: 0 <= i < j < |a| && a[i] == x && a[j] == y
  {
    var i :| 0 <= i < |a| && a[i] == x;
    var j :| 0 <= j < |a| && a[j] == y;
    LexTotal(f(x), f(y));
    if i == j {
      LexIrreflexive(f(x));
    }
  }

  // ---------- Images of keys ----------

  /** Code points: the order of Rust's string comparison, which UTF-8 preserves. */
  function CodePoints(s: string): seq<int> {
    if s == [] then [] else [s[0] as int] + CodePoints(s[1..])
  }

  /** UTF-16 code units: the order of JavaScript's default sort. */
  function Utf16(s: string): seq<int> {
    if s == [] then [] else Units(s[0]) + Utf16(s[1..])
  }

  function Units(c: char): seq<int> {
    var n := c as int;
    if n < 0x10000 then [n] else [0xD800 + (n - 0x10000) / 1024, 0xDC00 + (n - 0x10000) % 1024]
  }

  /** Section 2.2 of RFC 2781: one unit in the basic plane, a surrogate pair that decodes to the character beyond it. */
  lemma UnitsDecode(c: char)
    ensures c as int < 0x10000 ==> Units(c) == [c as int]
    ensures c as int >= 0x10000 ==>
      && |Units(c)| == 2 && 0xD800 <= Units(c)[0] < 0xDC00 <= Units(c)[1] < 0xE000
      && 0x10000 + (Units(c)[0] - 0xD800) * 0x400 + (Units(c)[1] - 0xDC00) == c as int
  {
  }

  lemma {:induction false} CodePointsInjective(a: string, b: string)
    requires CodePoints(a) == CodePoints(b)
    ensures a == b
  {
    if a != [] && b != [] {
      assert CodePoints(a)[1..] == CodePoints(a[1..]) && CodePoints(b)[1..] == CodePoints(b[1..]);
      CodePointsInjective(a[1..], b[1..]);
      assert a == [a[0]] + a[1..] && b == [b[0]] + b[1..];
    }
  }

  lemma UnitsPrefixFree(c: char, d: char, r: seq<int>, s: seq<int>)
    requires Units(c) + r == Units(d) + s
    ensures c == d && r == s
  {
    var u, v := Units(c) + r, Units(d) + s;
    assert u[0] == Units(c)[0] && v[0] == Units(d)[0];
    if |Units(c)| == 2 {
      assert u[1] == Units(c)[1];
    }
    if |Units(d)| == 2 {
      assert v[1] == Units(d)[1];
    }
    assert c as int == d as int;
    assert u[|Units(c)|..] == r && v[|Units(d)|..] == s;
  }

  lemma {:induction false} Utf16Injective(a: string, b: string)
    requires Utf16(a) == Utf16(b)
    ensures a == b
  {
    if a != [] && b != [] {
      UnitsPrefixFree(a[0], b[0], Utf16(a[1..]), Utf16(b[1..]));
      Utf16Injective(a[1..], b[1..]);
      assert a == [a[0]] + a[1..] && b == [b[0]] + b[1..];
    }
  }

  lemma CodePointsSeparate(s: set<string>)
    ensures InjectiveOn(s, CodePoints)
  {
    forall a, b | a in s && b in s && CodePoints(a) == CodePoints(b) ensures a == b {
      CodePointsInjective(a, b);
    }
  }

  lemma Utf16Separates(s: set<string>)
    ensures InjectiveOn(s, Utf16)
  {
    forall a, b | a in s && b in s && Utf16(a) == Utf16(b) ensures a == b {
      Utf16Injective(a, b);
    }
  }

  predicate Ascii(s: string) {
    forall i :: 0 <= i < |s| ==> s[i] as int < 128
  }

  /** On ASCII strings both images coincide. */
  lemma {:induction false} AsciiImages(s: string)
    requires Ascii(s)
    ensures Utf16(s) == CodePoints(s)
  {
    if s != [] {
      AsciiImages(s[1..]);
    }
  }
}
