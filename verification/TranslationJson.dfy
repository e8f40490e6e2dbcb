/** The reader that a rebuild in tools/pms_build_translations.py uses on translations.json: strict JSON, as
    json.loads reads it, for arrays of flat objects whose members are texts and integers. It is not the loader
    of src/main/diagnostics.cpp: it refuses control characters inside texts, and the writer escapes two only. */
module TranslationJson {

  import opened Basics
  import opened TranslationFile
  import opened TranslationSearch
  import opened TranslationWidths
  import opened TranslationRoundTrip

  // ---- The reader ------------------------------------------------------------------------

  // A value, and the position after it
  datatype Parsed<T> = Parsed(value: T, next: nat)

  predicate IsSpace(c: char) { c == ' ' || c == '\t' || c == '\n' || c == '\r' }

  function SkipSpace(data: string, i: nat): (r: nat)
    ensures i <= r
    decreases |data| - i
  {
    if i < |data| && IsSpace(data[i]) then SkipSpace(data, i + 1) else i
  }

  predicate IsEscape(c: char) { c in "\"\\/bfnrt" }

  function EscapeValue(c: char): char {
    if c == 'n' then '\n' else if c == 't' then '\t' else if c == 'r' then '\r'
    else if c == 'b' then 8 as char else if c == 'f' then 12 as char else c
  }

  // A text from behind its opening quote
  function StrictChars(data: string, i: nat): (r: Option<Parsed<string>>)
    ensures r.Some? ==> i < r.value.next
    decreases |data| - i
  {
    if i >= |data| || data[i] < ' ' then None
    else if data[i] == '"' then Some(Parsed([], i + 1))
    else if data[i] != '\\' then Front(data[i], StrictChars(data, i + 1))
    else if i + 1 < |data| && IsEscape(data[i + 1]) then Front(EscapeValue(data[i + 1]), StrictChars(data, i + 2))
    else None
  }

  function Front(c: char, r: Option<Parsed<string>>): Option<Parsed<string>> {
    if r.Some? then Some(Parsed([c] + r.value.value, r.value.next)) else None
  }

  function ReadText(data: string, i: nat): (r: Option<Parsed<string>>)
    ensures r.Some? ==> i < r.value.next
  {
    if i < |data| && data[i] == '"' then StrictChars(data, i + 1) else None
  }

  datatype Value = Text(text: string) | Number(number: int)

  // An integer: no leading zeros, and no fraction or exponent behind it
  function ReadNumber(data: string, i: nat): (r: Option<Parsed<Value>>)
    ensures r.Some? ==> i < r.value.next
  {
    if i >= |data| then None
    else
      var negative := data[i] == '-';
      var d := if negative then i + 1 else i;
      if d >= |data| then None
      else
        var q := PastDigits(data, d, |data|);
        if q == d || (data[d] == '0' && q > d + 1) || (q < |data| && data[q] in ".eE") then None
        else
          var v := Decimal(data[d..q]);
          Some(Parsed(Number(if negative then -v else v), q))
  }

  function ReadValue(data: string, i: nat): (r: Option<Parsed<Value>>)
    ensures r.Some? ==> i < r.value.next
  {
    if i < |data| && data[i] == '"' then
      var t := ReadText(data, i);
      if t.Some? then Some(Parsed(Text(t.value.value), t.value.next)) else None
    else ReadNumber(data, i)
  }

  datatype Member = Member(key: string, value: Value)

  function ReadMember(data: string, i: nat): (r: Option<Parsed<Member>>)
    ensures r.Some? ==> i < r.value.next
  {
    var k := ReadText(data, i);
    if k.None? then None
    else
      var c := SkipSpace(data, k.value.next);
      if c >= |data| || data[c] != ':' then None
      else
        var v := ReadValue(data, SkipSpace(data, c + 1));
        if v.None? then None else Some(Parsed(Member(k.value.value, v.value.value), v.value.next))
  }

  // The members from the first one up to the closing brace
  function ReadMembers(data: string, i: nat): (r: Option<Parsed<seq<Member>>>)
    ensures r.Some? ==> i < r.value.next
    decreases |data| - i
  {
    var m := ReadMember(data, i);
    if m.None? then None
    else
      var c := SkipSpace(data, m.value.next);
      if c >= |data| then None
      else if data[c] == '}' then Some(Parsed([m.value.value], c + 1))
      else if data[c] != ',' then None
      else
        var rest := ReadMembers(data, SkipSpace(data, c + 1));
        if rest.None? then None else Some(Parsed([m.value.value] + rest.value.value, rest.value.next))
  }

  function ReadObject(data: string, i: nat): (r: Option<Parsed<seq<Member>>>)
    ensures r.Some? ==> i < r.value.next
  {
    if i >= |data| || data[i] != '{' then None
    else
      var p := SkipSpace(data, i + 1);
      if p < |data| && data[p] == '}' then Some(Parsed([], p + 1)) else ReadMembers(data, p)
  }

  // Of several members with one key the last one counts; one that is missing, or no text, is empty.
  function Get(ms: seq<Member>, key: string): string {
    if ms == [] then []
    else if ms[|ms| - 1].key == key then (if ms[|ms| - 1].value.Text? then ms[|ms| - 1].value.text else [])
    else Get(ms[..|ms| - 1], key)
  }

  function EntryOf(ms: seq<Member>): Entry {
    Entry(Get(ms, "src_hex"), Get(ms, "src_jp"), Get(ms, "target"))
  }

  // The objects from the first one up to the closing bracket
  function ReadObjects(data: string, i: nat): (r: Option<Parsed<seq<Entry>>>)
    decreases |data| - i
  {
    var o := ReadObject(data, i);
    if o.None? then None
    else
      var c := SkipSpace(data, o.value.next);
      if c >= |data| then None
      else if data[c] == ']' then Some(Parsed([EntryOf(o.value.value)], c + 1))
      else if data[c] != ',' then None
      else
        var rest := ReadObjects(data, SkipSpace(data, c + 1));
        if rest.None? then None else Some(Parsed([EntryOf(o.value.value)] + rest.value.value, rest.value.next))
  }

  function ReadArray(data: string, i: nat): Option<Parsed<seq<Entry>>> {
    if i >= |data| || data[i] != '[' then None
    else
      var p := SkipSpace(data, i + 1);
      if p < |data| && data[p] == ']' then Some(Parsed([], p + 1)) else ReadObjects(data, p)
  }

  /** The entries of a file, or None if the reader refuses it. */
  function ReadFile(data: string): Option<seq<Entry>> {
    var r := ReadArray(data, SkipSpace(data, 0));
    if r.Some? && SkipSpace(data, r.value.next) == |data| then Some(r.value.value) else None
  }

  // ---- Reading what the writer printed ------------------------------------------------------

  /** The writer escapes newlines and tabs; other control characters stay as they are. */
  predicate Printable(s: string) { forall c :: c in s ==> PrintableChar(c) }

  predicate PrintableChar(c: char) { c >= ' ' || c == '\n' || c == '\t' }

  predicate Readable(e: Entry) { Printable(e.jp) && Printable(e.en) }

  predicate AllReadable(es: seq<Entry>) { forall e :: e in es ==> Readable(e) }

  lemma {:induction false} CharReads(data: string, p: nat, c: char)
    requires Has(data, p, EscapeChar(c))
    ensures StrictChars(data, p) ==
            if PrintableChar(c) then Front(c, StrictChars(data, p + |EscapeChar(c)|)) else None
  {
    var e := EscapeChar(c);
    assert data[p + 0] == e[0];
    assert |e| == 2 ==> data[p + 1] == e[1];
  }

  lemma {:induction false} PrintableFront(c: char, s: string)
    ensures Printable([c] + s) <==> PrintableChar(c) && Printable(s)
  {
    hide PrintableChar;
    assert forall d :: d in [c] + s <==> d == c || d in s;
  }

  lemma {:induction false} CharsRead(data: string, p: nat, v: string)
    requires Has(data, p, Escape(v) + "\"")
    ensures StrictChars(data, p) == if Printable(v) then Some(Parsed(v, p + |Escape(v)| + 1)) else None
    decreases |v|
  {
    hide EscapeChar, PrintableChar, StrictChars, Has, Escape, Printable;
    if v == [] {
      NoneReads(data, p);
    } else {
      var c, rest := v[0], v[1..];
      EscapeOfCons(c, rest);
      assert v == [c] + rest;
      assert Escape(v) + "\"" == EscapeChar(c) + (Escape(rest) + "\"");
      HasTail(data, p, EscapeChar(c), Escape(rest) + "\"");
      CharReads(data, p, c);
      CharsRead(data, p + |EscapeChar(c)|, rest);
      PrintableFront(c, rest);
    }
  }

  lemma {:induction false} NoneReads(data: string, p: nat)
    requires Has(data, p, Escape([]) + "\"")
    ensures StrictChars(data, p) == Some(Parsed([], p + 1)) && Escape([]) == [] && Printable([])
  {
    assert Escape([]) + "\"" == "\"";
    SeenAt(data, p, "\"", 0);
  }

  /** A printed text is read back exactly when it is printable, and else refused. */
  lemma {:induction false} TextReads(data: string, p: nat, v: string)
    requires Has(data, p, Quoted(Escape(v)))
    ensures ReadText(data, p) == if Printable(v) then Some(Parsed(v, p + |Escape(v)| + 2)) else None
  {
    hide Printable, StrictChars, Escape;
    assert Quoted(Escape(v)) == "\"" + (Escape(v) + "\"");
    HasTail(data, p, "\"", Escape(v) + "\"");
    SeenAt(data, p, "\"", 0);
    CharsRead(data, p + 1, v);
  }

  lemma {:induction false} NoSpace(data: string, p: nat)
    requires p < |data| && !IsSpace(data[p])
    ensures SkipSpace(data, p) == p
  {
  }

  lemma {:induction false} OneSpace(data: string, p: nat)
    requires p + 1 < |data| && IsSpace(data[p]) && !IsSpace(data[p + 1])
    ensures SkipSpace(data, p) == p + 1
  {
    NoSpace(data, p + 1);
  }

  lemma {:induction false} MemberReads(data: string, p: nat, key: string, text: string, value: string)
    requires Has(data, p, Quoted(key)) && Escape(key) == key && Printable(key)
    requires Has(data, p + |key| + 1, Quoted(": "))
    requires Has(data, p + |key| + 4, Quoted(text)) && text == Escape(value)
    ensures ReadMember(data, p) ==
            if Printable(value) then Some(Parsed(Member(key, Text(value)), p + |key| + |text| + 6)) else None
  {
    hide Printable, Escape, Has;
    TextReads(data, p, key);
    var c := p + |key| + 2;
    SeenAt(data, c - 1, Quoted(": "), 1);
    SeenAt(data, c - 1, Quoted(": "), 2);
    SeenAt(data, c + 2, Quoted(text), 0);
    NoSpace(data, c);
    OneSpace(data, c + 1);
    TextReads(data, c + 2, value);
  }

  lemma {:induction false} KeysAreRead()
    ensures Escape("src_hex") == "src_hex" && Printable("src_hex")
    ensures Escape("src_jp") == "src_jp" && Printable("src_jp")
    ensures Escape("target") == "target" && Printable("target")
  {
    hide Escape, Printable;
    LettersAreRead("src_hex");
    LettersAreRead("src_jp");
    LettersAreRead("target");
  }

  lemma {:induction false} LettersAreRead(k: string)
    requires forall i :: 0 <= i < |k| ==> 'a' <= k[i] <= 'z' || k[i] == '_'
    ensures Escape(k) == k && Printable(k)
  {
    EscapeOfPlain(k);
  }

  lemma {:induction false} HexIsRead(hex: string)
    requires HexDigits(hex)
    ensures Escape(hex) == hex && Printable(hex)
  {
    PlainHex(hex);
    EscapeOfPlain(hex);
  }

  lemma {:induction false} GetOfMore(ms: seq<Member>, m: Member, key: string)
    ensures Get(ms + [m], key) ==
            if m.key != key then Get(ms, key) else if m.value.Text? then m.value.text else []
  {
    assert (ms + [m])[..|ms|] == ms;
  }

  lemma {:induction false} ThreeMembers(e: Entry)
    ensures EntryOf([Member("src_hex", Text(e.hex)), Member("src_jp", Text(e.jp)), Member("target", Text(e.en))]) == e
  {
    hide Get;
    var hex, jp, en := Member("src_hex", Text(e.hex)), Member("src_jp", Text(e.jp)), Member("target", Text(e.en));
    assert "src_jp"[4] == 'j' && "src_hex"[4] == 'h' && "target"[0] == 't';
    assert [hex, jp, en] == [hex, jp] + [en] && [hex, jp] == [hex] + [jp] && [hex] == [] + [hex];
    forall key | key in ["src_hex", "src_jp", "target"]
      ensures Get([hex, jp, en], key) == if en.key == key then e.en else if jp.key == key then e.jp else e.hex
    {
      GetOfMore([hex, jp], en, key);
      GetOfMore([hex], jp, key);
      GetOfMore([], hex, key);
    }
  }

  // A width changes nothing in the entry.
  lemma {:induction false} OneMoreMember(ms: seq<Member>, key: string, n: int)
    requires IsWidth(key)
    ensures EntryOf(ms + [Member(key, Number(n))]) == EntryOf(ms)
  {
    hide Get;
    assert "src_jp"[0] == 's' && "src_hex"[0] == 's' && "target"[0] == 't' && key[0] in "of";
    GetOfMore(ms, Member(key, Number(n)), "src_hex");
    GetOfMore(ms, Member(key, Number(n)), "src_jp");
    GetOfMore(ms, Member(key, Number(n)), "target");
  }

  function WidthMembers(i: Item): seq<Member> {
    (if i.origW.Some? then [Member("orig_w", Number(i.origW.value))] else []) +
    (if i.fitW.Some? then [Member("fit_w", Number(i.fitW.value))] else [])
  }

  lemma {:induction false} AllMembers(i: Item)
    ensures EntryOf([Member("src_hex", Text(i.entry.hex)), Member("src_jp", Text(i.entry.jp)),
                     Member("target", Text(i.entry.en))] + WidthMembers(i)) == i.entry
  {
    hide EntryOf;
    var e := i.entry;
    var three := [Member("src_hex", Text(e.hex)), Member("src_jp", Text(e.jp)), Member("target", Text(e.en))];
    ThreeMembers(e);
    var four := if i.origW.Some? then three + [Member("orig_w", Number(i.origW.value))] else three;
    if i.origW.Some? { OneMoreMember(three, "orig_w", i.origW.value); }
    if i.fitW.Some? { OneMoreMember(four, "fit_w", i.fitW.value); }
    assert three + WidthMembers(i) == if i.fitW.Some? then four + [Member("fit_w", Number(i.fitW.value))] else four;
  }

  // ---- Reading a width --------------------------------------------------------------------------

  lemma {:induction false} LeadingDigit(n: nat)
    ensures Digits(n)[0] == '0' <==> n == 0
    ensures n == 0 ==> |Digits(n)| == 1
  {
    if n >= 10 { LeadingDigit(n / 10); }
  }

  // The digits of k at d, with a sign before or behind
  lemma {:induction false} DigitsAreRead(data: string, d: nat, k: nat)
    requires Has(data, d, Digits(k)) && d + |Digits(k)| < |data|
    requires var c := data[d + |Digits(k)|]; c == ' ' || c == ','
    ensures data[d] != '"' && data[d] != '-' && Digits(k) != [] && PastDigits(data, d, |data|) == d + |Digits(k)|
    ensures Decimal(data[d..d + |Digits(k)|]) == k && (data[d] == '0' ==> |Digits(k)| == 1)
  {
    hide Has, Decimal, Digits, PastDigits;
    assert Digits(k)[0] in Digits(k);
    SeenAt(data, d, Digits(k), 0);
    DigitsReach(data, d, Digits(k), |data|);
    DecimalOfDigits(k);
    LeadingDigit(k);
  }

  lemma {:induction false} UnsignedNumber(data: string, p: nat, q: nat)
    requires p < q < |data| && data[p] != '"' && data[p] != '-' && PastDigits(data, p, |data|) == q
    requires (data[p] == '0' ==> q == p + 1) && (data[q] == ' ' || data[q] == ',')
    ensures ReadValue(data, p) == Some(Parsed(Number(Decimal(data[p..q])), q))
  {
    hide Decimal, PastDigits, ReadText;
  }

  lemma {:induction false} SignedNumber(data: string, p: nat, q: nat)
    requires p + 1 < q < |data| && data[p] == '-' && PastDigits(data, p + 1, |data|) == q
    requires (data[p + 1] == '0' ==> q == p + 2) && (data[q] == ' ' || data[q] == ',')
    ensures ReadValue(data, p) == Some(Parsed(Number(-Decimal(data[p + 1..q])), q))
  {
    hide Decimal, PastDigits, ReadText;
  }

  lemma {:induction false} NegativeIsRead(data: string, p: nat, n: int)
    requires n < 0
    requires var t := "-" + Digits(-n);
             Has(data, p, t) && p + |t| < |data| && (data[p + |t|] == ' ' || data[p + |t|] == ',')
    ensures ReadValue(data, p) == Some(Parsed(Number(n), p + 1 + |Digits(-n)|))
  {
    hide Has, Decimal, Digits, PastDigits, ReadValue;
    HasTail(data, p, "-", Digits(-n));
    SeenAt(data, p, "-", 0);
    DigitsAreRead(data, p + 1, -n);
    SignedNumber(data, p, p + 1 + |Digits(-n)|);
  }

  lemma {:induction false} NumberIsRead(data: string, p: nat, n: int)
    requires Has(data, p, Numeral(n)) && p + |Numeral(n)| < |data|
    requires var c := data[p + |Numeral(n)|]; c == ' ' || c == ','
    ensures ReadValue(data, p) == Some(Parsed(Number(n), p + |Numeral(n)|))
  {
    hide Has, Decimal, Digits, PastDigits, ReadValue, IsDigit;
    if n < 0 {
      NegativeIsRead(data, p, n);
    } else {
      DigitsAreRead(data, p, n);
      UnsignedNumber(data, p, p + |Digits(n)|);
    }
  }

  lemma {:induction false} WidthMemberReads(data: string, x: nat, key: string, n: int)
    requires Has(data, x, Width(key, n)) && IsWidth(key) && x + |Width(key, n)| < |data|
    requires var c := data[x + |Width(key, n)|]; c == ' ' || c == ','
    ensures x + 2 < |data| && data[x] == ',' && data[x + 1] == ' ' && data[x + 2] == '"'
    ensures ReadMember(data, x + 2) == Some(Parsed(Member(key, Number(n)), x + |Width(key, n)|))
  {
    hide Has, Numeral, ReadValue, ReadText, SkipSpace, Escape, Printable;
    WidthParts(data, x, key, n);
    SeenAt(data, x, ", ", 0);
    SeenAt(data, x, ", ", 1);
    SeenAt(data, x + 2, Quoted(key), 0);
    WidthKeys(key);
    LettersAreRead(key);
    TextReads(data, x + 2, key);
    var c := x + |key| + 4;
    SeenAt(data, c, ": ", 0);
    SeenAt(data, c, ": ", 1);
    NoSpace(data, c);
    NumeralIsSigned(data, c + 2, n);
    OneSpace(data, c + 1);
    NumberIsRead(data, c + 2, n);
  }

  lemma {:induction false} NumeralIsSigned(data: string, p: nat, n: int)
    requires Has(data, p, Numeral(n))
    ensures p < |data| && !IsSpace(data[p])
  {
    hide Digits;
    SeenAt(data, p, Numeral(n), 0);
    var d := Digits(if n < 0 then -n else n);
    assert d[0] in d;
  }

  // The rest of the members behind member m, which ends at x
  lemma {:induction false} TailMembers(data: string, p: nat, m: Member, x: nat, i: Item)
    requires ReadMember(data, p) == Some(Parsed(m, x)) && Has(data, x, Widths(i))
    requires var w := x + |Widths(i)|; w + 1 < |data| && data[w] == ' ' && data[w + 1] == '}'
    ensures ReadMembers(data, p) == Some(Parsed([m] + WidthMembers(i), x + |Widths(i)| + 2))
  {
    hide Has, Width, ReadMember, ReadMembers;
    var o, f := OptionalWidth("orig_w", i.origW), OptionalWidth("fit_w", i.fitW);
    HasTail(data, x, o, f);
    var y := x + |o|;
    if i.origW.None? {
      assert Widths(i) == f && WidthMembers(i) == if i.fitW.Some? then [Member("fit_w", Number(i.fitW.value))] else [];
      SecondMember(data, p, m, x, i.fitW);
    } else {
      var n := i.origW.value;
      NextIsSign(data, y, i.fitW);
      WidthMemberReads(data, x, "orig_w", n);
      NextMember(data, p, m, x);
      SecondMember(data, x + 2, Member("orig_w", Number(n)), y, i.fitW);
      assert [m] + ([Member("orig_w", Number(n))] + WidthMembers(i)[1..]) == [m] + WidthMembers(i);
    }
  }

  lemma {:induction false} NextIsSign(data: string, y: nat, w: Option<int>)
    requires var f := OptionalWidth("fit_w", w); Has(data, y, f) && y + |f| < |data| && data[y + |f|] == ' '
    ensures y < |data| && (data[y] == ' ' || data[y] == ',')
  {
    if w.Some? {
      WidthParts(data, y, "fit_w", w.value);
      SeenAt(data, y, ", ", 0);
    }
  }

  lemma {:induction false} SecondMember(data: string, p: nat, m: Member, y: nat, w: Option<int>)
    requires var f := OptionalWidth("fit_w", w);
             && ReadMember(data, p) == Some(Parsed(m, y)) && Has(data, y, f)
             && y + |f| + 1 < |data| && data[y + |f|] == ' ' && data[y + |f| + 1] == '}'
    ensures ReadMembers(data, p) ==
            Some(Parsed([m] + (if w.Some? then [Member("fit_w", Number(w.value))] else []),
                        y + |OptionalWidth("fit_w", w)| + 2))
  {
    hide Has, Width, ReadMember, ReadMembers;
    if w.None? {
      LastMember(data, p, m, y);
      assert [m] + [] == [m];
    } else {
      WidthMemberReads(data, y, "fit_w", w.value);
      NextMember(data, p, m, y);
      LastMember(data, y + 2, Member("fit_w", Number(w.value)), y + |Width("fit_w", w.value)|);
    }
  }

  lemma {:induction false} LastMember(data: string, p: nat, m: Member, next: nat)
    requires ReadMember(data, p) == Some(Parsed(m, next))
    requires next + 1 < |data| && data[next] == ' ' && data[next + 1] == '}'
    ensures ReadMembers(data, p) == Some(Parsed([m], next + 2))
  {
    OneSpace(data, next);
    hide ReadMember, SkipSpace;
  }

  lemma {:induction false} NextMember(data: string, p: nat, m: Member, next: nat)
    requires ReadMember(data, p) == Some(Parsed(m, next))
    requires next + 2 < |data| && data[next] == ',' && data[next + 1] == ' ' && data[next + 2] == '"'
    ensures ReadMembers(data, p) ==
            var rest := ReadMembers(data, next + 2);
            if rest.Some? then Some(Parsed([m] + rest.value.value, rest.value.next)) else None
  {
    NoSpace(data, next);
    OneSpace(data, next + 1);
    hide ReadMember, SkipSpace;
  }

  lemma {:induction false} NoMember(data: string, p: nat)
    requires ReadMember(data, p) == None
    ensures ReadMembers(data, p) == None
  {
  }

  // What stands between the members of a printed line
  lemma {:induction false} LineSigns(data: string, a: nat, e: Entry, tail: string)
    requires LineAt(data, a, e, tail)
    ensures var m := MarksOf(a, e);
            && m.enClose < |data| && data[a + 2] == '{' && data[a + 3] == ' ' && data[a + 4] == '"'
            && data[m.hexClose + 1] == ',' && data[m.hexClose + 2] == ' ' && data[m.hexClose + 3] == '"'
            && data[m.jpClose + 1] == ',' && data[m.jpClose + 2] == ' ' && data[m.jpClose + 3] == '"'
  {
    hide Has, Escape;
    var m := MarksOf(a, e);
    SeenAt(data, a, "  { ", 2);
    SeenAt(data, a, "  { ", 3);
    SeenAt(data, a + 4, SRC, 0);
    SeenAt(data, m.hexClose, Quoted(", "), 1);
    SeenAt(data, m.hexClose, Quoted(", "), 2);
    SeenAt(data, m.hexClose, Quoted(", "), 3);
    SeenAt(data, m.jpClose, Quoted(", "), 1);
    SeenAt(data, m.jpClose, Quoted(", "), 2);
    SeenAt(data, m.jpClose, Quoted(", "), 3);
    HasQuoted(data, m.enOpen, Escape(e.en));
  }

  // Where the object ends that is printed at a
  function ObjectEnd(a: nat, i: Item): nat { MarksOf(a, i.entry).enClose + |Widths(i)| + 3 }

  lemma {:induction false} LineEnds(data: string, a: nat, i: Item, more: bool)
    requires LineAt(data, a, i.entry, Widths(i) + Close(more))
    ensures Has(data, MarksOf(a, i.entry).enClose + 1, Widths(i))
    ensures var w := ObjectEnd(a, i) - 2;
            && w + 2 < |data| && data[w] == ' ' && data[w + 1] == '}'
            && (if more then data[w + 2] == ',' && Has(data, w + 3, "\n") else data[w + 2] == '\n')
  {
    hide Escape, Widths, Has;
    var x := MarksOf(a, i.entry).enClose + 1;
    HasTail(data, x, Widths(i), Close(more));
    var w := x + |Widths(i)|;
    SeenAt(data, w, Close(more), 0);
    SeenAt(data, w, Close(more), 1);
    SeenAt(data, w, Close(more), 2);
    if more {
      assert Close(more) == " }," + "\n";
      HasTail(data, w, " },", "\n");
    }
  }

  lemma {:induction false} ObjectReads(data: string, a: nat, i: Item, more: bool) returns (ms: seq<Member>)
    requires LineAt(data, a, i.entry, Widths(i) + Close(more)) && HexDigits(i.entry.hex)
    ensures ReadObject(data, a + 2) == if Readable(i.entry) then Some(Parsed(ms, ObjectEnd(a, i))) else None
    ensures EntryOf(ms) == i.entry
  {
    hide Has, Escape, Printable, ReadMember, ReadMembers, EntryOf, HexDigits, SkipSpace, Widths, WidthMembers;
    var e, m := i.entry, MarksOf(a, i.entry);
    KeysAreRead();
    HexIsRead(e.hex);
    LineSigns(data, a, e, Widths(i) + Close(more));
    LineEnds(data, a, i, more);
    MemberReads(data, a + 4, "src_hex", e.hex, e.hex);
    MemberReads(data, m.hexClose + 3, "src_jp", Escape(e.jp), e.jp);
    MemberReads(data, m.jpClose + 3, "target", Escape(e.en), e.en);
    var hex, jp, en := Member("src_hex", Text(e.hex)), Member("src_jp", Text(e.jp)), Member("target", Text(e.en));
    ms := [hex, jp, en] + WidthMembers(i);
    AllMembers(i);
    NextMember(data, a + 4, hex, m.hexClose + 1);
    if Printable(e.jp) {
      NextMember(data, m.hexClose + 3, jp, m.jpClose + 1);
      if Printable(e.en) {
        TailMembers(data, m.jpClose + 3, en, m.enClose + 1, i);
        assert [hex] + ([jp] + ([en] + WidthMembers(i))) == ms;
      } else {
        NoMember(data, m.jpClose + 3);
      }
    } else {
      NoMember(data, m.hexClose + 3);
    }
    OneSpace(data, a + 3);
  }

  lemma {:induction false} LastObject(data: string, a: nat, ms: seq<Member>, next: nat)
    requires ReadObject(data, a) == Some(Parsed(ms, next))
    requires next + 1 < |data| && data[next] == '\n' && data[next + 1] == ']'
    ensures ReadObjects(data, a) == Some(Parsed([EntryOf(ms)], next + 2))
  {
    OneSpace(data, next);
    hide ReadObject, SkipSpace;
  }

  lemma {:induction false} NextObject(data: string, a: nat, ms: seq<Member>, next: nat, p: nat)
    requires ReadObject(data, a) == Some(Parsed(ms, next))
    requires next < |data| && data[next] == ',' && SkipSpace(data, next + 1) == p
    ensures ReadObjects(data, a) ==
            var rest := ReadObjects(data, p);
            if rest.Some? then Some(Parsed([EntryOf(ms)] + rest.value.value, rest.value.next)) else None
  {
    NoSpace(data, next);
    hide ReadObject, SkipSpace;
  }

  lemma {:induction false} NoObject(data: string, a: nat)
    requires ReadObject(data, a) == None
    ensures ReadObjects(data, a) == None
  {
  }

  // A newline and the start of the next line
  lemma {:induction false} ToNextLine(data: string, p: nat)
    requires Has(data, p, "\n") && Has(data, p + 1, "  { ")
    ensures SkipSpace(data, p) == p + 3
  {
    SeenAt(data, p, "\n", 0);
    SeenAt(data, p + 1, "  { ", 0);
    SeenAt(data, p + 1, "  { ", 1);
    SeenAt(data, p + 1, "  { ", 2);
    NoSpace(data, p + 3);
    assert SkipSpace(data, p + 2) == p + 3 && SkipSpace(data, p + 1) == p + 3;
  }

  lemma {:induction false} LineStarts(data: string, a: nat, items: seq<Item>)
    requires items != [] && Has(data, a, ItemLines(items) + "]\n")
    ensures Has(data, a, "  { ") && a + 2 < |data| && data[a + 2] == '{'
  {
    hide Has;
    FirstLine(data, a, items);
    SeenAt(data, a, "  { ", 2);
  }

  function Entries(items: seq<Item>): (es: seq<Entry>)
    ensures |es| == |items| && forall k :: 0 <= k < |items| ==> es[k] == items[k].entry
  {
    if items == [] then [] else [items[0].entry] + Entries(items[1..])
  }

  lemma {:induction false} ObjectsRead(data: string, a: nat, items: seq<Item>)
    requires items != [] && Has(data, a, ItemLines(items) + "]\n") && a + |ItemLines(items) + "]\n"| == |data|
    requires forall i :: i in items ==> HexDigits(i.entry.hex)
    ensures ReadObjects(data, a + 2) ==
            if AllReadable(Entries(items)) then Some(Parsed(Entries(items), |data| - 1)) else None
    decreases |items|
  {
    hide Has, Escape, ItemLines, LineAt, ReadObject, ReadObjects, Readable, EntryOf, HexDigits, Gap, Find, SkipSpace,
      Widths;
    var more, i := |items| > 1, items[0];
    var b := a + |ItemLine(i, more)|;
    NextAfterLine(data, a, items);
    LineLength(i.entry, Widths(i) + Close(more), a);
    var ms := ObjectReads(data, a, i, more);
    var next := ObjectEnd(a, i);
    assert Entries(items) == [i.entry] + Entries(items[1..]);
    LineEnds(data, a, i, more);
    if !Readable(i.entry) {
      NoObject(data, a + 2);
    } else if more {
      LineStarts(data, b, items[1..]);
      ToNextLine(data, next + 1);
      NextObject(data, a + 2, ms, next, b + 2);
      ObjectsRead(data, b, items[1..]);
    } else {
      NoLines(items[1..]);
      SeenAt(data, b, "]\n", 0);
      LastObject(data, a + 2, ms, next);
      assert [i.entry] + [] == [i.entry];
    }
  }

  /** Reading a printed file returns its entries exactly when all their texts are printable; otherwise the
      whole file is refused. */
  lemma {:induction false} ReadUndoesPrint(items: seq<Item>)
    requires forall i :: i in items ==> HexDigits(i.entry.hex)
    ensures ReadFile(PrintItems(items)) == if AllReadable(Entries(items)) then Some(Entries(items)) else None
  {
    hide PrintItems, Has, ItemLines, ReadArray, AllReadable, HexDigits;
    var data := PrintItems(items);
    PrintParts(items);
    SeenAt(data, 0, "[\n", 0);
    SeenAt(data, 0, "[\n", 1);
    SeenAt(data, 2, ItemLines(items) + "]\n", |ItemLines(items)| + 1);
    ArrayReads(data, items);
    FileEnds(data);
    NoSpace(data, 0);
  }

  lemma {:induction false} ArrayReads(data: string, items: seq<Item>)
    requires |data| > 2 && data[0] == '[' && data[1] == '\n'
    requires Has(data, 2, ItemLines(items) + "]\n") && 2 + |ItemLines(items) + "]\n"| == |data|
    requires forall i :: i in items ==> HexDigits(i.entry.hex)
    ensures ReadArray(data, 0) ==
            if AllReadable(Entries(items)) then Some(Parsed(Entries(items), |data| - 1)) else None
  {
    hide Has, ItemLines, HexDigits, Readable, ReadObjects, SkipSpace;
    if items == [] {
      NoLines(items);
      SeenAt(data, 2, "]\n", 0);
      OneSpace(data, 1);
    } else {
      LineStarts(data, 2, items);
      FileStarts(data);
      ObjectsRead(data, 2, items);
    }
  }

  /** For a file as the tool prints it. */
  lemma {:induction false} ReadUndoesTool(es: seq<Entry>)
    requires forall e :: e in es ==> HexDigits(e.hex)
    ensures ReadFile(Print(es)) == if AllReadable(es) then Some(es) else None
    ensures Entries(Bares(es)) == es
  {
    hide PrintItems, Print, ReadFile, AllReadable, HexDigits, Bares;
    BaresAre(es);
    forall i | i in Bares(es)
      ensures HexDigits(i.entry.hex)
    {
      var k :| 0 <= k < |es| && Bares(es)[k] == i;
      assert es[k] in es;
    }
    assert Entries(Bares(es)) == es;
    ReadUndoesPrint(Bares(es));
  }

  lemma {:induction false} FileStarts(data: string)
    requires |data| > 1 && data[1] == '\n' && Has(data, 2, "  { ")
    ensures SkipSpace(data, 1) == 4
  {
    ToNextLine(data, 1);
  }

  lemma {:induction false} FileEnds(data: string)
    requires data != [] && data[|data| - 1] == '\n'
    ensures SkipSpace(data, |data| - 1) == |data|
  {
  }
}
