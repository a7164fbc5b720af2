/**
 The compact JSON text of a value, as JSON.stringify and serde_json print it without whitespace,
 and that it can be read back in only one way.
 */
module JsonText {
  import opened KeyOrder
  import opened Json

  // ---------- Strings ----------

  function Hex(n: int): char
    requires 0 <= n < 16
  {
    "0123456789abcdef"[n]
  }

  /** The escapes of a JSON string: quote, backslash and the control characters. */
  function Escape(c: char): string {
    if c == '"' then ['\\', '"']
    else if c == '\\' then ['\\', '\\']
    else if c as int == 8 then ['\\', 'b']
    else if c as int == 9 then ['\\', 't']
    else if c as int == 10 then ['\\', 'n']
    else if c as int == 12 then ['\\', 'f']
    else if c as int == 13 then ['\\', 'r']
    else if c as int < 32 then ['\\', 'u', '0', '0', Hex(c as int / 16), Hex(c as int % 16)]
    else [c]
  }

  function EscapeAll(s: string): string {
    if s == [] then [] else Escape(s[0]) + EscapeAll(s[1..])
  }

  function Quote(s: string): string {
    "\"" + EscapeAll(s) + "\""
  }

  // ---------- Values ----------

  function Print(v: Json): string
    decreases v, 1
  {
    match v
    case Null => "null"
    case Undefined => "null"
    case Bool(b) => if b then "true" else "false"
    case Num(text) => text
    case Str(s) => Quote(s)
    case Arr(items) => "[" + PrintItems(v, 0) + "]"
    case Obj(entries) => "{" + PrintEntries(v, 0) + "}"
  }

  /** The items from position i on, joined by commas. */
  function PrintItems(v: Json, i: nat): string
    requires v.Arr? && i <= |v.items|
    decreases v, 0, |v.items| - i
  {
    if i == |v.items| then ""
    else if i + 1 == |v.items| then Print(v.items[i])
    else Print(v.items[i]) + "," + PrintItems(v, i + 1)
  }

  function PrintEntries(v: Json, i: nat): string
    requires v.Obj? && i <= |v.entries|
    decreases v, 0, |v.entries| - i
  {
    if i == |v.entries| then ""
    else
      var e := Quote(v.entries[i].0) + ":" + Print(v.entries[i].1);
      if i + 1 == |v.entries| then e else e + "," + PrintEntries(v, i + 1)
  }

  // ---------- Reading strings back ----------

  lemma HexInjective(m: int, n: int)
    requires 0 <= m < 16 && 0 <= n < 16 && Hex(m) == Hex(n)
    ensures m == n
  {
  }

  /** No escape is a prefix of another followed by something else. */
  lemma EscapePrefixFree(c: char, d: char, r: string, s: string)
    requires Escape(c) + r == Escape(d) + s
    ensures c == d && r == s
  {
    var u, v := Escape(c) + r, Escape(d) + s;
    assert u[0] == Escape(c)[0] && v[0] == Escape(d)[0];
    if u[0] == '\\' {
      assert u[1] == Escape(c)[1] && v[1] == Escape(d)[1];
      if u[1] == 'u' {
        assert u[4] == Escape(c)[4] && u[5] == Escape(c)[5] && v[4] == Escape(d)[4] && v[5] == Escape(d)[5];
        HexInjective(c as int / 16, d as int / 16);
        HexInjective(c as int % 16, d as int % 16);
      }
      assert c as int == d as int;
    }
    assert u[|Escape(c)|..] == r && v[|Escape(d)|..] == s;
  }

  lemma EscapeNotQuote(c: char)
    ensures Escape(c) != [] && Escape(c)[0] != '"'
  {
  }

  lemma {:induction false} QuotedUnique(a: string, b: string, r: string, s: string)
    requires EscapeAll(a) + "\"" + r == EscapeAll(b) + "\"" + s
    ensures a == b && r == s
  {
    QuotedHead(a, r);
    QuotedHead(b, s);
    if a == [] {
      assert (EscapeAll(a) + "\"" + r)[1..] == r && (EscapeAll(b) + "\"" + s)[1..] == s;
    } else {
      QuotedSplit(a, r);
      QuotedSplit(b, s);
      hide Escape, EscapeAll;
      EscapePrefixFree(a[0], b[0], EscapeAll(a[1..]) + "\"" + r, EscapeAll(b[1..]) + "\"" + s);
      QuotedUnique(a[1..], b[1..], r, s);
      assert a == [a[0]] + a[1..] && b == [b[0]] + b[1..];
    }
  }

  lemma QuotedSplit(a: string, r: string)
    requires a != []
    ensures EscapeAll(a) + "\"" + r == Escape(a[0]) + (EscapeAll(a[1..]) + "\"" + r)
  {
  }

  /** The closing quote comes first only when nothing is left to read. */
  lemma QuotedHead(a: string, r: string)
    ensures var t := EscapeAll(a) + "\"" + r; t != [] && (t[0] == '"' <==> a == [])
  {
    if a != [] {
      EscapeNotQuote(a[0]);
      assert (EscapeAll(a) + "\"" + r)[0] == Escape(a[0])[0];
    }
  }

  lemma QuoteUnique(a: string, b: string, r: string, s: string)
    requires Quote(a) + r == Quote(b) + s
    ensures a == b && r == s
  {
    hide Escape, EscapeAll;
    var x, y := EscapeAll(a) + "\"" + r, EscapeAll(b) + "\"" + s;
    assert Quote(a) + r == ['"'] + x && Quote(b) + s == ['"'] + y;
    DropFirst('"', x, y);
    QuotedUnique(a, b, r, s);
  }

  // ---------- Reading values back ----------

  predicate NumberChar(c: char) {
    '0' <= c <= '9' || c == '-' || c == '+' || c == '.' || c == 'e' || c == 'E'
  }

  /** Numbers are nonempty texts over the number alphabet starting with a digit or a minus sign. */
  predicate NumberText(t: string) {
    t != [] && ('0' <= t[0] <= '9' || t[0] == '-') && forall i :: 0 <= i < |t| ==> NumberChar(t[i])
  }

  ghost predicate NumbersPrinted(v: Json) {
    match v
    case Num(text) => NumberText(text)
    case Arr(items) => forall i :: 0 <= i < |items| ==> NumbersPrinted(items[i])
    case Obj(entries) => forall i :: 0 <= i < |entries| ==> NumbersPrinted(entries[i].1)
    case _ => true
  }

  /** What may follow a value inside a JSON text. */
  predicate Follows(r: string) {
    r == [] || r[0] == ',' || r[0] == ']' || r[0] == '}'
  }

  /** Undefined prints as null: the values as their text shows them. */
  function Fill(v: Json): Json {
    match v
    case Undefined => Null
    case Arr(items) => Arr(seq(|items|, i requires 0 <= i < |items| => Fill(items[i])))
    case Obj(entries) => Obj(seq(|entries|, i requires 0 <= i < |entries| => (entries[i].0, Fill(entries[i].1))))
    case _ => v
  }

  function Kind(v: Json): char {
    match v
    case Null => 'n'
    case Undefined => 'n'
    case Bool(b) => if b then 't' else 'f'
    case Num(_) => '0'
    case Str(_) => '"'
    case Arr(_) => '['
    case Obj(_) => '{'
  }

  /** The first character of a value's text tells its kind. */
  lemma FirstChar(v: Json)
    requires NumbersPrinted(v)
    ensures Print(v) != []
    ensures if v.Num? then '0' <= Print(v)[0] <= '9' || Print(v)[0] == '-' else Print(v)[0] == Kind(v)
  {
  }

  lemma {:induction false} NumberUnique(a: string, b: string, r: string, s: string)
    requires forall i :: 0 <= i < |a| ==> NumberChar(a[i])
    requires forall i :: 0 <= i < |b| ==> NumberChar(b[i])
    requires Follows(r) && Follows(s) && a + r == b + s
    ensures a == b && r == s
  {
    NotLonger(a, b, r, s);
    NotLonger(b, a, s, r);
    assert (a + r)[..|a|] == a && (b + s)[..|b|] == b && (a + r)[|a|..] == r && (b + s)[|b|..] == s;
  }

  lemma NotLonger(a: string, b: string, r: string, s: string)
    requires forall i :: 0 <= i < |b| ==> NumberChar(b[i])
    requires Follows(r) && a + r == b + s
    ensures |b| <= |a|
  {
    IndexAt(a, r, |a|);
    IndexAt(b, s, |a|);
  }

  lemma IndexAt(x: string, y: string, i: nat)
    ensures i < |x| ==> (x + y)[i] == x[i]
    ensures |x| <= i < |x| + |y| ==> (x + y)[i] == y[i - |x|]
  {
  }

  lemma SameKind(u: Json, v: Json, r: string, s: string)
    requires NumbersPrinted(u) && NumbersPrinted(v) && Print(u) + r == Print(v) + s
    ensures Kind(u) == Kind(v)
  {
    FirstChar(u);
    FirstChar(v);
    assert (Print(u) + r)[0] == Print(u)[0] && (Print(v) + s)[0] == Print(v)[0];
  }

  /**
   A value's text is self-delimiting: if two texts continued by something that may follow a value
   agree, the values are the same (undefined counting as null) and so are the continuations.
   */
  lemma {:induction false} PrintUnique(u: Json, v: Json, r: string, s: string)
    requires NumbersPrinted(u) && NumbersPrinted(v) && Follows(r) && Follows(s)
    requires Print(u) + r == Print(v) + s
    ensures Fill(u) == Fill(v) && r == s
    decreases u, 1
  {
    SameKind(u, v, r, s);
    match u
    case Num(text) => NumberUnique(text, v.text, r, s);
    case Str(t) => QuoteUnique(t, v.s, r, s);
    case Arr(items) =>
      Brackets(u, r);
      Brackets(v, s);
      hide Print, ItemsText, NumbersPrinted;
      DropFirst('[', ItemsText(u, 0, r), ItemsText(v, 0, s));
      ItemsUnique(u, v, 0, r, s);
      assert Fill(u).items == Fill(v).items;
    case Obj(entries) =>
      Brackets(u, r);
      Brackets(v, s);
      hide Print, EntriesText, NumbersPrinted;
      DropFirst('{', EntriesText(u, 0, r), EntriesText(v, 0, s));
      EntriesUnique(u, v, 0, r, s);
      assert Fill(u).entries == Fill(v).entries;
    case _ =>
      WordUnique(u, v, r, s);
  }

  lemma Brackets(v: Json, r: string)
    ensures v.Arr? ==> Print(v) + r == ['['] + (ItemsText(v, 0, r))
    ensures v.Obj? ==> Print(v) + r == ['{'] + (EntriesText(v, 0, r))
  {
  }

  lemma WordUnique(u: Json, v: Json, r: string, s: string)
    requires u.Null? || u.Undefined? || u.Bool?
    requires Kind(u) == Kind(v) && Print(u) + r == Print(v) + s
    ensures Fill(u) == Fill(v) && r == s
  {
    assert Print(u) == Print(v);
    assert (Print(u) + r)[|Print(u)|..] == r && (Print(v) + s)[|Print(v)|..] == s;
  }

  lemma DropFirst(c: char, a: string, b: string)
    requires [c] + a == [c] + b
    ensures a == b
  {
    assert ([c] + a)[1..] == a && ([c] + b)[1..] == b;
  }

  /** The text from item i to the closing bracket, and what follows it. */
  ghost function ItemsText(v: Json, i: nat, r: string): string
    requires v.Arr? && i <= |v.items|
  {
    PrintItems(v, i) + "]" + r
  }

  ghost function EntriesText(v: Json, i: nat, r: string): string
    requires v.Obj? && i <= |v.entries|
  {
    PrintEntries(v, i) + "}" + r
  }

  /** After an element comes the closing bracket or a comma and the next element. */
  lemma SameRest(close: char, lastU: bool, lastV: bool, x: string, y: string, r: string, s: string, a: string)
    requires close != ','
    requires a == (if lastU then [close] + r else [','] + x) == (if lastV then [close] + s else [','] + y)
    ensures lastU == lastV && (lastU ==> r == s) && (!lastU ==> x == y)
  {
    assert a[0] == (if lastU then close else ',') && a[0] == (if lastV then close else ',');
    assert a[1..] == (if lastU then r else x) && a[1..] == (if lastV then s else y);
  }

  ghost function ItemRest(v: Json, i: nat, r: string): string
    requires v.Arr? && i < |v.items|
  {
    if i + 1 == |v.items| then [']'] + r else [','] + ItemsText(v, i + 1, r)
  }

  /** The text from item i on, with its continuation, split at the end of that item. */
  lemma ItemSplit(v: Json, i: nat, r: string)
    requires v.Arr? && i < |v.items|
    ensures ItemsText(v, i, r) == Print(v.items[i]) + ItemRest(v, i, r) && Follows(ItemRest(v, i, r))
  {
  }

  lemma {:induction false} ItemsUnique(u: Json, v: Json, i: nat, r: string, s: string)
    requires u.Arr? && v.Arr? && NumbersPrinted(u) && NumbersPrinted(v) && i <= |u.items| && i <= |v.items|
    requires ItemsText(u, i, r) == ItemsText(v, i, s)
    ensures |u.items| == |v.items| && r == s
    ensures forall j :: i <= j < |u.items| ==> Fill(u.items[j]) == Fill(v.items[j])
    decreases u, 0, |u.items| - i
  {
    ItemsEnd(u, v, i, r, s);
    if i < |u.items| {
      ItemNumbers(u, i);
      ItemNumbers(v, i);
      hide Fill, Print, ItemsText, NumbersPrinted, ItemRest;
      ItemSplit(u, i, r);
      ItemSplit(v, i, s);
      PrintUnique(u.items[i], v.items[i], ItemRest(u, i, r), ItemRest(v, i, s));
      ItemRestUnique(u, v, i, r, s);
      if i + 1 < |u.items| {
        ItemsUnique(u, v, i + 1, r, s);
      }
    }
  }

  lemma ItemNumbers(v: Json, i: nat)
    requires v.Arr? && NumbersPrinted(v) && i < |v.items|
    ensures NumbersPrinted(v.items[i])
  {
  }

  lemma ItemRestUnique(u: Json, v: Json, i: nat, r: string, s: string)
    requires u.Arr? && v.Arr? && i < |u.items| && i < |v.items| && ItemRest(u, i, r) == ItemRest(v, i, s)
    ensures i + 1 == |u.items| <==> i + 1 == |v.items|
    ensures if i + 1 == |u.items| then r == s else ItemsText(u, i + 1, r) == ItemsText(v, i + 1, s)
  {
    hide ItemsText;
    var x := if i + 1 == |u.items| then "" else ItemsText(u, i + 1, r);
    var y := if i + 1 == |v.items| then "" else ItemsText(v, i + 1, s);
    SameRest(']', i + 1 == |u.items|, i + 1 == |v.items|, x, y, r, s, ItemRest(u, i, r));
  }

  lemma NonemptyItems(v: Json, i: nat, r: string)
    requires v.Arr? && NumbersPrinted(v) && i <= |v.items|
    ensures ItemsText(v, i, r)[0] == ']' <==> i == |v.items|
    ensures i == |v.items| ==> ItemsText(v, i, r) == [']'] + r
  {
    if i < |v.items| {
      FirstChar(v.items[i]);
      ItemSplit(v, i, r);
      assert (Print(v.items[i]) + ItemRest(v, i, r))[0] == Print(v.items[i])[0];
    }
  }

  lemma ItemsEnd(u: Json, v: Json, i: nat, r: string, s: string)
    requires u.Arr? && v.Arr? && NumbersPrinted(u) && NumbersPrinted(v) && i <= |u.items| && i <= |v.items|
    requires ItemsText(u, i, r) == ItemsText(v, i, s)
    ensures i == |u.items| <==> i == |v.items|
    ensures i == |u.items| ==> r == s
  {
    NonemptyItems(u, i, r);
    NonemptyItems(v, i, s);
    hide ItemsText;
    if i == |u.items| {
      DropFirst(']', r, s);
    }
  }

  ghost function EntryRest(v: Json, i: nat, r: string): string
    requires v.Obj? && i < |v.entries|
  {
    if i + 1 == |v.entries| then ['}'] + r else [','] + EntriesText(v, i + 1, r)
  }

  lemma EntrySplit(v: Json, i: nat, r: string)
    requires v.Obj? && i < |v.entries|
    ensures EntriesText(v, i, r) == Quote(v.entries[i].0) + (":" + (Print(v.entries[i].1) + EntryRest(v, i, r)))
  {
    hide Quote, Print;
  }

  lemma EntryRestFollows(v: Json, i: nat, r: string)
    requires v.Obj? && i < |v.entries|
    ensures Follows(EntryRest(v, i, r))
  {
  }

  /** Equal texts from position i on begin with the same key, and go on alike after it. */
  lemma EntryKeyUnique(u: Json, v: Json, i: nat, r: string, s: string)
    requires u.Obj? && v.Obj? && i < |u.entries| && i < |v.entries|
    requires EntriesText(u, i, r) == EntriesText(v, i, s)
    ensures u.entries[i].0 == v.entries[i].0
    ensures Print(u.entries[i].1) + EntryRest(u, i, r) == Print(v.entries[i].1) + EntryRest(v, i, s)
  {
    EntrySplit(u, i, r);
    EntrySplit(v, i, s);
    hide Quote, Print, EntriesText, EntryRest;
    var p, q := Print(u.entries[i].1) + EntryRest(u, i, r), Print(v.entries[i].1) + EntryRest(v, i, s);
    QuoteUnique(u.entries[i].0, v.entries[i].0, ":" + p, ":" + q);
    DropFirst(':', p, q);
  }

  lemma EntryNumbers(v: Json, i: nat)
    requires v.Obj? && NumbersPrinted(v) && i < |v.entries|
    ensures NumbersPrinted(v.entries[i].1)
  {
  }

  lemma EntryRestUnique(u: Json, v: Json, i: nat, r: string, s: string)
    requires u.Obj? && v.Obj? && i < |u.entries| && i < |v.entries| && EntryRest(u, i, r) == EntryRest(v, i, s)
    ensures i + 1 == |u.entries| <==> i + 1 == |v.entries|
    ensures if i + 1 == |u.entries| then r == s else EntriesText(u, i + 1, r) == EntriesText(v, i + 1, s)
  {
    hide EntriesText;
    var x := if i + 1 == |u.entries| then "" else EntriesText(u, i + 1, r);
    var y := if i + 1 == |v.entries| then "" else EntriesText(v, i + 1, s);
    SameRest('}', i + 1 == |u.entries|, i + 1 == |v.entries|, x, y, r, s, EntryRest(u, i, r));
  }

  /** From position i on, both objects have the same keys and, undefined counting as null, values. */
  ghost predicate SameEntries(u: Json, v: Json, i: nat) {
    && u.Obj? && v.Obj? && |u.entries| == |v.entries|
    && forall j :: i <= j < |u.entries| ==> u.entries[j].0 == v.entries[j].0 && Fill(u.entries[j].1) == Fill(v.entries[j].1)
  }

  lemma NoEntriesLeft(u: Json, v: Json)
    requires u.Obj? && v.Obj? && |u.entries| == |v.entries|
    ensures SameEntries(u, v, |u.entries|)
  {
  }

  lemma OneMoreEntry(u: Json, v: Json, i: nat)
    requires SameEntries(u, v, i + 1) && i < |u.entries|
    requires u.entries[i].0 == v.entries[i].0 && Fill(u.entries[i].1) == Fill(v.entries[i].1)
    ensures SameEntries(u, v, i)
  {
  }

  lemma {:induction false} EntriesUnique(u: Json, v: Json, i: nat, r: string, s: string)
    requires u.Obj? && v.Obj? && NumbersPrinted(u) && NumbersPrinted(v) && i <= |u.entries| && i <= |v.entries|
    requires EntriesText(u, i, r) == EntriesText(v, i, s)
    ensures |u.entries| == |v.entries| && r == s && SameEntries(u, v, i)
    decreases u, 0, |u.entries| - i
  {
    EntriesEnd(u, v, i, r, s);
    hide SameEntries;
    if i == |u.entries| {
      NoEntriesLeft(u, v);
    } else {
      EntryNumbers(u, i);
      EntryNumbers(v, i);
      EntryKeyUnique(u, v, i, r, s);
      EntryRestFollows(u, i, r);
      EntryRestFollows(v, i, s);
      hide Quote, Fill, Print, EntriesText, NumbersPrinted, EntryRest, Follows;
      PrintUnique(u.entries[i].1, v.entries[i].1, EntryRest(u, i, r), EntryRest(v, i, s));
      EntryRestUnique(u, v, i, r, s);
      if i + 1 < |u.entries| {
        EntriesUnique(u, v, i + 1, r, s);
      } else {
        NoEntriesLeft(u, v);
      }
      OneMoreEntry(u, v, i);
    }
  }

  lemma NonemptyEntries(v: Json, i: nat, r: string)
    requires v.Obj? && i <= |v.entries|
    ensures EntriesText(v, i, r)[0] == '}' <==> i == |v.entries|
    ensures i == |v.entries| ==> EntriesText(v, i, r) == ['}'] + r
  {
    if i < |v.entries| {
      EntrySplit(v, i, r);
      assert (Quote(v.entries[i].0) + (":" + (Print(v.entries[i].1) + EntryRest(v, i, r))))[0] == '"';
    }
  }

  lemma EntriesEnd(u: Json, v: Json, i: nat, r: string, s: string)
    requires u.Obj? && v.Obj? && i <= |u.entries| && i <= |v.entries|
    requires EntriesText(u, i, r) == EntriesText(v, i, s)
    ensures i == |u.entries| <==> i == |v.entries|
    ensures i == |u.entries| ==> r == s
  {
    NonemptyEntries(u, i, r);
    NonemptyEntries(v, i, s);
    hide EntriesText;
    if i == |u.entries| {
      DropFirst('}', r, s);
    }
  }

  /** Values without undefined have the same text only if they are the same, entry order included. */
  lemma PrintInjective(u: Json, v: Json)
    requires NumbersPrinted(u) && NumbersPrinted(v) && Print(u) == Print(v)
    ensures Fill(u) == Fill(v)
  {
    assert Print(u) + "" == Print(v) + "";
    PrintUnique(u, v, "", "");
  }

  /** The text does not distinguish undefined from null. */
  lemma {:induction false} PrintFill(v: Json)
    ensures Print(Fill(v)) == Print(v)
    decreases v, 1
  {
    match v
    case Arr(items) => PrintFillItems(v, 0);
    case Obj(entries) => PrintFillEntries(v, 0);
    case _ =>
  }

  lemma {:induction false} PrintFillItems(v: Json, i: nat)
    requires v.Arr? && i <= |v.items|
    ensures PrintItems(Fill(v), i) == PrintItems(v, i)
    decreases v, 0, |v.items| - i
  {
    if i < |v.items| {
      PrintFill(v.items[i]);
      PrintFillItems(v, i + 1);
    }
  }

  lemma {:induction false} PrintFillEntries(v: Json, i: nat)
    requires v.Obj? && i <= |v.entries|
    ensures PrintEntries(Fill(v), i) == PrintEntries(v, i)
    decreases v, 0, |v.entries| - i
  {
    if i < |v.entries| {
      PrintFill(v.entries[i].1);
      PrintFillEntries(v, i + 1);
    }
  }

  // ---------- Rearranging and printing ----------

  lemma {:induction false} FillWellFormed(v: Json)
    requires WellFormed(v)
    ensures WellFormed(Fill(v))
    decreases v
  {
    match v
    case Arr(items) =>
      forall i | 0 <= i < |items| ensures WellFormed(Fill(items[i])) {
        FillWellFormed(items[i]);
      }
    case Obj(entries) =>
      assert Keys(Fill(v).entries) == Keys(entries);
      forall i | 0 <= i < |entries| ensures WellFormed(Fill(entries[i].1)) {
        FillWellFormed(entries[i].1);
      }
    case _ =>
  }

  lemma {:induction false} FillRearranged(arrange: Arrangement, v: Json)
    requires Canonical(arrange) && WellFormed(v)
    ensures Fill(Rearrange(arrange, v)) == Rearrange(arrange, Fill(v))
    decreases v
  {
    match v
    case Arr(items) =>
      forall i | 0 <= i < |items| ensures Fill(Rearrange(arrange, items[i])) == Rearrange(arrange, Fill(items[i])) {
        FillRearranged(arrange, items[i]);
      }
      assert Fill(Rearrange(arrange, v)).items == Rearrange(arrange, Fill(v)).items;
    case Obj(entries) => FillRearrangedObject(arrange, v);
    case _ =>
  }

  lemma {:induction false} FillRearrangedObject(arrange: Arrangement, v: Json)
    requires Canonical(arrange) && WellFormed(v) && v.Obj?
    ensures Fill(Rearrange(arrange, v)) == Rearrange(arrange, Fill(v))
    decreases v, 0
  {
    var entries, filled := v.entries, Fill(v).entries;
    assert Keys(filled) == Keys(entries);
    RearrangedEntries(arrange, entries);
    RearrangedEntries(arrange, filled);
    var ks := arrange(Keys(entries));
    var a, b := Rearrange(arrange, v).entries, Rearrange(arrange, Fill(v)).entries;
    assert |a| == |Keys(a)| == |ks| && |b| == |Keys(b)| == |ks|;
    forall i | 0 <= i < |ks| ensures Fill(a[i].1) == b[i].1 && a[i].0 == b[i].0 {
      var j := IndexOf(entries, ks[i]);
      assert j < |entries| && filled[j].0 == ks[i];
      KeyFound(filled, j);
      FillRearranged(arrange, entries[j].1);
    }
    assert Fill(Rearrange(arrange, v)).entries == b;
  }

  lemma {:induction false} NumbersRearranged(arrange: Arrangement, v: Json)
    requires Canonical(arrange) && WellFormed(v) && NumbersPrinted(v)
    ensures NumbersPrinted(Rearrange(arrange, v))
    decreases v
  {
    match v
    case Arr(items) =>
      forall i | 0 <= i < |items| ensures NumbersPrinted(Rearrange(arrange, items[i])) {
        NumbersRearranged(arrange, items[i]);
      }
    case Obj(entries) =>
      RearrangedEntries(arrange, entries);
      var w := Rearrange(arrange, v);
      var ks := arrange(Keys(entries));
      assert |w.entries| == |Keys(w.entries)| == |ks|;
      forall i | 0 <= i < |w.entries| ensures NumbersPrinted(w.entries[i].1) {
        NumbersRearranged(arrange, entries[IndexOf(entries, ks[i])].1);
      }
    case _ =>
  }

  /**
   Printing a canonically rearranged value: two values get the same text exactly when they are
   equal up to the order of object keys, at every depth, and up to undefined standing for null.
   */
  lemma RearrangedTextIdentifies(arrange: Arrangement, u: Json, v: Json)
    requires Canonical(arrange) && WellFormed(u) && WellFormed(v) && NumbersPrinted(u) && NumbersPrinted(v)
    ensures Print(Rearrange(arrange, u)) == Print(Rearrange(arrange, v)) <==> Equivalent(Fill(u), Fill(v))
  {
    NumbersRearranged(arrange, u);
    NumbersRearranged(arrange, v);
    FillRearranged(arrange, u);
    FillRearranged(arrange, v);
    FillWellFormed(u);
    FillWellFormed(v);
    hide Rearrange, Canonical, Equivalent, Fill, Print, NumbersPrinted, WellFormed;
    RearrangeCharacterizes(arrange, Fill(u), Fill(v));
    var a, b := Rearrange(arrange, u), Rearrange(arrange, v);
    if Print(a) == Print(b) {
      PrintInjective(a, b);
    }
    if Fill(a) == Fill(b) {
      PrintFill(a);
      PrintFill(b);
    }
  }
}
