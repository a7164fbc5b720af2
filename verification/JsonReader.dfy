/**
 A reader of compact JSON texts after the grammar of RFC 8259, written independently of the printer:
 what a parser makes of the texts that are signed and hashed.
 */
module JsonReader {
  import opened Json
  import opened JsonText
  import opened Options

  // ---------- Strings ----------

  function HexValue(c: char): Option<nat> {
    if '0' <= c <= '9' then Some(c as nat - '0' as nat)
    else if 'a' <= c <= 'f' then Some(c as nat - 'a' as nat + 10)
    else if 'A' <= c <= 'F' then Some(c as nat - 'A' as nat + 10)
    else None
  }

  /** The scalar value of four hexadecimal digits. */
  function ReadHex(s: string): Option<char> {
    if |s| < 4 then None
    else match (HexValue(s[0]), HexValue(s[1]), HexValue(s[2]), HexValue(s[3]))
      case (Some(a), Some(b), Some(c), Some(d)) =>
        var n := ((a * 16 + b) * 16 + c) * 16 + d;
        if n < 0xD800 || 0xE000 <= n < 0x10000 then Some(n as char) else None
      case _ => None
  }

  /** The character an escape of two characters stands for. */
  function ReadEscape(c: char): Option<char> {
    if c == '"' || c == '\\' || c == '/' then Some(c)
    else if c == 'b' then Some(0x8 as char)
    else if c == 'f' then Some(0xC as char)
    else if c == 'n' then Some(0xA as char)
    else if c == 'r' then Some(0xD as char)
    else if c == 't' then Some(0x9 as char)
    else None
  }

  /** The first character of a string's contents, and the text after it. */
  function ReadChar(s: string): (r: Option<(char, string)>)
    ensures r.Some? ==> |r.value.1| < |s|
  {
    if s == [] then None
    else if s[0] != '\\' then (if s[0] != '"' && s[0] as int >= 0x20 then Some((s[0], s[1..])) else None)
    else if |s| < 2 then None
    else if s[1] == 'u' then (match ReadHex(s[2..]) case None => None case Some(c) => Some((c, s[6..])))
    else match ReadEscape(s[1]) case None => None case Some(c) => Some((c, s[2..]))
  }

  /** The contents of a string up to its closing quote, and the text after that. */
  function ReadString(s: string): (r: Option<(string, string)>)
    ensures r.Some? ==> |r.value.1| < |s|
    decreases |s|
  {
    if s == [] then None
    else if s[0] == '"' then Some(("", s[1..]))
    else match ReadChar(s)
      case None => None
      case Some(p) =>
        match ReadString(p.1)
        case None => None
        case Some(q) => Some(([p.0] + q.0, q.1))
  }

  lemma CharReadsBack(c: char, r: string)
    ensures ReadChar(Escape(c) + r) == Some((c, r))
    ensures Escape(c) != [] && Escape(c)[0] != '"'
  {
    var s, n := Escape(c) + r, c as int;
    if c != '"' && c != '\\' && n < 32 && n != 8 && n != 9 && n != 10 && n != 12 && n != 13 {
      ControlReadsBack(c, r);
    } else {
      assert s[|Escape(c)|..] == r;
    }
  }

  lemma ControlReadsBack(c: char, r: string)
    requires c as int < 32
    ensures ReadChar(['\\', 'u', '0', '0', Hex(c as int / 16), Hex(c as int % 16)] + r) == Some((c, r))
  {
    var s := ['\\', 'u', '0', '0', Hex(c as int / 16), Hex(c as int % 16)] + r;
    HexReadsBack(c as int / 16);
    HexReadsBack(c as int % 16);
    var t := s[2..];
    assert t[0] == '0' && t[1] == '0' && t[2] == Hex(c as int / 16) && t[3] == Hex(c as int % 16);
    assert s[6..] == r;
  }

  lemma HexReadsBack(n: nat)
    requires n < 16
    ensures HexValue(Hex(n)) == Some(n)
  {
  }

  lemma {:induction false} StringReadsBack(a: string, r: string)
    ensures ReadString(EscapeAll(a) + "\"" + r) == Some((a, r))
  {
    var s := EscapeAll(a) + "\"" + r;
    if a == [] {
      assert s == ['"'] + r;
    } else {
      var rest := EscapeAll(a[1..]) + "\"" + r;
      QuotedSplit(a, r);
      CharReadsBack(a[0], rest);
      StringReadsBack(a[1..], r);
      assert s[0] == Escape(a[0])[0];
      assert a == [a[0]] + a[1..];
      hide Escape, EscapeAll, ReadChar;
    }
  }

  // ---------- Values ----------

  /** How many characters of the number alphabet the text begins with. */
  function NumberLength(s: string): (n: nat)
    ensures n <= |s|
  {
    if s == [] || !NumberChar(s[0]) then 0 else 1 + NumberLength(s[1..])
  }

  function ReadWord(s: string, word: string, v: Json): (r: Option<(Json, string)>)
    requires word != []
    ensures r.Some? ==> |r.value.1| < |s|
  {
    if word <= s then Some((v, s[|word|..])) else None
  }

  /** The value a text begins with, and the text after it. */
  function ReadValue(s: string): (r: Option<(Json, string)>)
    ensures r.Some? ==> |r.value.1| < |s|
    decreases |s|, 0
  {
    if s == [] then None
    else if s[0] == 'n' then ReadWord(s, "null", Null)
    else if s[0] == 't' then ReadWord(s, "true", Bool(true))
    else if s[0] == 'f' then ReadWord(s, "false", Bool(false))
    else if s[0] == '"' then
      match ReadString(s[1..])
      case None => None
      case Some(p) => Some((Str(p.0), p.1))
    else if s[0] == '[' then
      if |s| > 1 && s[1] == ']' then Some((Arr([]), s[2..]))
      else match ReadItems(s[1..])
        case None => None
        case Some(p) => Some((Arr(p.0), p.1))
    else if s[0] == '{' then
      if |s| > 1 && s[1] == '}' then Some((Obj([]), s[2..]))
      else match ReadEntries(s[1..])
        case None => None
        case Some(p) => Some((Obj(p.0), p.1))
    else if '0' <= s[0] <= '9' || s[0] == '-' then
      var n := NumberLength(s);
      Some((Num(s[..n]), s[n..]))
    else None
  }

  /** Values separated by commas, up to a closing bracket. */
  function ReadItems(s: string): (r: Option<(seq<Json>, string)>)
    ensures r.Some? ==> |r.value.1| < |s|
    decreases |s|, 1
  {
    match ReadValue(s)
    case None => None
    case Some(p) =>
      if p.1 == [] then None
      else if p.1[0] == ']' then Some(([p.0], p.1[1..]))
      else if p.1[0] != ',' then None
      else match ReadItems(p.1[1..])
        case None => None
        case Some(q) => Some(([p.0] + q.0, q.1))
  }

  /** A member of an object: a string, a colon and a value. */
  function ReadEntry(s: string): (r: Option<((string, Json), string)>)
    ensures r.Some? ==> |r.value.1| < |s|
    decreases |s|, 0
  {
    if s == [] || s[0] != '"' then None
    else match ReadString(s[1..])
      case None => None
      case Some(k) =>
        if k.1 == [] || k.1[0] != ':' then None
        else match ReadValue(k.1[1..])
          case None => None
          case Some(p) => Some(((k.0, p.0), p.1))
  }

  function ReadEntries(s: string): (r: Option<(seq<(string, Json)>, string)>)
    ensures r.Some? ==> |r.value.1| < |s|
    decreases |s|, 1
  {
    match ReadEntry(s)
    case None => None
    case Some(p) =>
      if p.1 == [] then None
      else if p.1[0] == '}' then Some(([p.0], p.1[1..]))
      else if p.1[0] != ',' then None
      else match ReadEntries(p.1[1..])
        case None => None
        case Some(q) => Some(([p.0] + q.0, q.1))
  }

  // ---------- Reading back what was printed ----------

  lemma {:induction false} NumberLengthIs(t: string, r: string)
    requires (forall i :: 0 <= i < |t| ==> NumberChar(t[i])) && Follows(r)
    ensures NumberLength(t + r) == |t|
  {
    if t == [] {
      assert t + r == r;
    } else {
      assert (t + r)[1..] == t[1..] + r;
      NumberLengthIs(t[1..], r);
    }
  }

  lemma NumberReadsBack(t: string, r: string)
    requires NumberText(t) && Follows(r)
    ensures ReadValue(t + r) == Some((Num(t), r))
  {
    NumberLengthIs(t, r);
    assert (t + r)[0] == t[0];
    assert (t + r)[..|t|] == t && (t + r)[|t|..] == r;
  }

  lemma WordReadsBack(v: Json, r: string)
    requires v.Null? || v.Undefined? || v.Bool?
    ensures ReadValue(Print(v) + r) == Some((Fill(v), r))
  {
    var t := Print(v);
    assert (t + r)[0] == t[0] && t <= t + r && (t + r)[|t|..] == r;
  }

  lemma QuoteReadsBack(a: string, r: string)
    ensures Quote(a) + r != [] && (Quote(a) + r)[0] == '"' && ReadString((Quote(a) + r)[1..]) == Some((a, r))
  {
    StringReadsBack(a, r);
    hide EscapeAll, ReadString;
    assert (Quote(a) + r)[1..] == EscapeAll(a) + "\"" + r;
  }

  /**
   Reading the text of any value gives the value back, undefined as null, and leaves what follows it:
   the printer writes JSON, and exactly this value.
   */
  lemma {:induction false} ReadsBack(v: Json, r: string)
    requires NumbersPrinted(v) && Follows(r)
    ensures ReadValue(Print(v) + r) == Some((Fill(v), r))
    decreases v, 2
  {
    match v
    case Num(text) => NumberReadsBack(text, r);
    case Str(s) => QuoteReadsBack(s, r);
    case Arr(items) =>
      ArrayReadsBack(v, r);
    case Obj(entries) =>
      ObjectReadsBack(v, r);
    case _ => WordReadsBack(v, r);
  }

  function FilledItems(v: Json, i: nat): seq<Json>
    requires v.Arr? && i <= |v.items|
  {
    Fill(v).items[i..]
  }

  lemma {:induction false} ArrayReadsBack(v: Json, r: string)
    requires v.Arr? && NumbersPrinted(v) && Follows(r)
    ensures ReadValue(Print(v) + r) == Some((Fill(v), r))
    decreases v, 1
  {
    Brackets(v, r);
    NonemptyItems(v, 0, r);
    var s := ['['] + ItemsText(v, 0, r);
    assert s[0] == '[' && s[1..] == ItemsText(v, 0, r);
    if v.items == [] {
      assert s[2..] == r;
      assert Fill(v) == Arr([]);
    } else {
      ItemsReadBack(v, 0, r);
      hide ItemsText, ReadItems, Print, Fill;
      assert s[1] == ItemsText(v, 0, r)[0];
      assert FilledItems(v, 0) == Fill(v).items;
    }
  }

  lemma {:induction false} ItemsReadBack(v: Json, i: nat, r: string)
    requires v.Arr? && NumbersPrinted(v) && Follows(r) && i < |v.items|
    ensures ReadItems(ItemsText(v, i, r)) == Some((FilledItems(v, i), r))
    decreases v, 0, |v.items| - i
  {
    ItemSplit(v, i, r);
    ItemNumbers(v, i);
    ReadsBack(v.items[i], ItemRest(v, i, r));
    assert FilledItems(v, i) == [Fill(v.items[i])] + FilledItems(v, i + 1);
    hide Print, ItemsText, ReadValue, Fill, FilledItems, NumbersPrinted;
    if i + 1 == |v.items| {
      assert FilledItems(v, i) == [Fill(v.items[i])];
      assert ([']'] + r)[1..] == r;
    } else {
      assert ([','] + ItemsText(v, i + 1, r))[1..] == ItemsText(v, i + 1, r);
      ItemsReadBack(v, i + 1, r);
    }
  }

  function FilledEntries(v: Json, i: nat): seq<(string, Json)>
    requires v.Obj? && i <= |v.entries|
  {
    Fill(v).entries[i..]
  }

  lemma {:induction false} ObjectReadsBack(v: Json, r: string)
    requires v.Obj? && NumbersPrinted(v) && Follows(r)
    ensures ReadValue(Print(v) + r) == Some((Fill(v), r))
    decreases v, 1
  {
    Brackets(v, r);
    NonemptyEntries(v, 0, r);
    var s := ['{'] + EntriesText(v, 0, r);
    assert s[0] == '{' && s[1..] == EntriesText(v, 0, r);
    if v.entries == [] {
      assert s[2..] == r;
      assert Fill(v) == Obj([]);
    } else {
      EntriesReadBack(v, 0, r);
      hide EntriesText, ReadEntries, Print, Fill;
      assert s[1] == EntriesText(v, 0, r)[0];
      assert FilledEntries(v, 0) == Fill(v).entries;
    }
  }

  lemma {:induction false} EntryReadsBack(v: Json, i: nat, r: string)
    requires v.Obj? && NumbersPrinted(v) && Follows(r) && i < |v.entries|
    ensures ReadEntry(EntriesText(v, i, r)) == Some(((v.entries[i].0, Fill(v.entries[i].1)), EntryRest(v, i, r)))
    decreases v, 0, |v.entries| - i, 0
  {
    var text := Print(v.entries[i].1) + EntryRest(v, i, r);
    EntrySplit(v, i, r);
    EntryRestFollows(v, i, r);
    EntryNumbers(v, i);
    ReadsBack(v.entries[i].1, EntryRest(v, i, r));
    hide Print, EntriesText, ReadValue, ReadString, Quote, EntryRest;
    QuoteReadsBack(v.entries[i].0, ":" + text);
    assert (":" + text)[0] == ':' && (":" + text)[1..] == text;
  }

  lemma LastEntry(s: string, e: (string, Json), r: string)
    requires ReadEntry(s) == Some((e, ['}'] + r))
    ensures ReadEntries(s) == Some(([e], r))
  {
    hide ReadEntry;
    assert (['}'] + r)[1..] == r;
  }

  lemma MoreEntries(s: string, e: (string, Json), t: string, es: seq<(string, Json)>, r: string)
    requires ReadEntry(s) == Some((e, [','] + t)) && ReadEntries(t) == Some((es, r))
    ensures ReadEntries(s) == Some(([e] + es, r))
  {
    hide ReadEntry;
    assert ([','] + t)[1..] == t;
  }

  lemma FilledSplit(v: Json, i: nat)
    requires v.Obj? && i < |v.entries|
    ensures FilledEntries(v, i) == [(v.entries[i].0, Fill(v.entries[i].1))] + FilledEntries(v, i + 1)
    ensures FilledEntries(v, |v.entries|) == []
  {
  }

  lemma {:induction false} EntriesReadBack(v: Json, i: nat, r: string)
    requires v.Obj? && NumbersPrinted(v) && Follows(r) && i < |v.entries|
    ensures ReadEntries(EntriesText(v, i, r)) == Some((FilledEntries(v, i), r))
    decreases v, 0, |v.entries| - i, 1
  {
    hide EntriesText, FilledEntries, ReadEntry, ReadEntries, Fill, NumbersPrinted, Follows;
    var e := (v.entries[i].0, Fill(v.entries[i].1));
    EntryReadsBack(v, i, r);
    FilledSplit(v, i);
    if i + 1 == |v.entries| {
      assert FilledEntries(v, i) == [e];
      LastEntry(EntriesText(v, i, r), e, r);
    } else {
      EntriesReadBack(v, i + 1, r);
      MoreEntries(EntriesText(v, i, r), e, EntriesText(v, i + 1, r), FilledEntries(v, i + 1), r);
    }
  }
}
