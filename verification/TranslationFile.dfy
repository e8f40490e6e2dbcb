/** translations.json: the writer of tools/pms_build_translations.py and the search-based loader of
    src/main/diagnostics.cpp. A text is the sequence of its UTF-8 bytes; the four characters that the
    writer escapes are ASCII, so escaping characters and escaping bytes is the same. */
module TranslationFile {

  import opened Basics

  // ---- The writer ------------------------------------------------------------------

  datatype Entry = Entry(hex: string, jp: string, en: string)

  function EscapeChar(c: char): string {
    if c == '"' then "\\\""
    else if c == '\\' then "\\\\"
    else if c == '\n' then "\\n"
    else if c == '\t' then "\\t"
    else [c]
  }

  function Escape(s: string): string {
    if s == [] then [] else Escape(s[..|s| - 1]) + EscapeChar(s[|s| - 1])
  }

  method JsonEscape(s: string) returns (out: string)
    ensures out == Escape(s)
  {
    out := [];
    for i := 0 to |s|
      invariant out == Escape(s[..i])
    {
      assert s[..i + 1][..i] == s[..i];
      var ch := s[i];
      if ch == '"' { out := out + "\\\""; }
      else if ch == '\\' { out := out + "\\\\"; }
      else if ch == '\n' { out := out + "\\n"; }
      else if ch == '\t' { out := out + "\\t"; }
      else { out := out + [ch]; }
    }
    assert s[..|s|] == s;
  }

  function Quoted(k: string): string { "\"" + k + "\"" }

  // "key": "value" and what follows it on the line
  function Field(key: string, value: string, rest: string): string {
    Quoted(key) + (": " + (Quoted(value) + rest))
  }

  function Line(e: Entry, more: bool): string {
    var close := " }" + (if more then ",\n" else "\n");
    "  { " + Field("src_hex", e.hex,
             ", " + Field("src_jp", Escape(e.jp),
                      ", " + Field("target", Escape(e.en), close)))
  }

  function Lines(es: seq<Entry>): string {
    if es == [] then [] else Line(es[0], |es| > 1) + Lines(es[1..])
  }

  function Print(es: seq<Entry>): string { "[\n" + Lines(es) + "]\n" }

  /** An entry as it may stand in the file: with optional widths behind the target. The writer prints none,
      they are added by hand. */
  datatype Item = Item(entry: Entry, origW: Option<int>, fitW: Option<int>)

  function Bare(e: Entry): Item { Item(e, None, None) }

  // A number as JSON writes it
  function Numeral(n: int): string { if n < 0 then "-" + Digits(-n) else Digits(n) }

  function Digits(n: nat): (s: string)
    ensures s != [] && forall c :: c in s ==> IsDigit(c)
  {
    (if n < 10 then [] else Digits(n / 10)) + [(n % 10 + '0' as int) as char]
  }

  function Width(key: string, n: int): string { ", " + (Quoted(key) + (": " + Numeral(n))) }

  function OptionalWidth(key: string, w: Option<int>): string { if w.Some? then Width(key, w.value) else [] }

  function Widths(i: Item): string { OptionalWidth("orig_w", i.origW) + OptionalWidth("fit_w", i.fitW) }

  function Close(more: bool): string { " }" + (if more then ",\n" else "\n") }

  // A line with what follows the target
  function LineWith(e: Entry, tail: string): string {
    "  { " + Field("src_hex", e.hex,
             ", " + Field("src_jp", Escape(e.jp),
                      ", " + Field("target", Escape(e.en), tail)))
  }

  function ItemLine(i: Item, more: bool): string { LineWith(i.entry, Widths(i) + Close(more)) }

  function ItemLines(items: seq<Item>): string {
    if items == [] then [] else ItemLine(items[0], |items| > 1) + ItemLines(items[1..])
  }

  function PrintItems(items: seq<Item>): string { "[\n" + ItemLines(items) + "]\n" }

  lemma {:induction false} SampleDigits()
    ensures Digits(3) == "3" && Digits(12) == "12"
  {
    assert Digits(1) == ['1'] && Digits(3) == ['3'];
    assert Digits(12) == ['1', '2'];
  }

  lemma {:induction false} SampleWidths()
    ensures Width("orig_w", 3) == ", \"orig_w\": 3" && Width("fit_w", -12) == ", \"fit_w\": -12"
  {
    SampleDigits();
  }

  lemma {:induction false} EscapeOfTwo(c: char, d: char)
    ensures Escape([c, d]) == EscapeChar(c) + EscapeChar(d)
  {
    hide EscapeChar;
    assert [c, d][..1] == [c] && [c][..0] == [];
    assert Escape([c]) == [] + EscapeChar(c);
  }

  lemma {:induction false} SampleEscapes()
    ensures Escape("x\n") == "x\\n" && Escape("Hi") == "Hi"
  {
    EscapeOfTwo('x', '\n');
    EscapeOfTwo('H', 'i');
    assert "x\n" == ['x', '\n'] && "Hi" == ['H', 'i'];
    hide Escape;
  }

  lemma {:induction false} SampleTail()
    ensures Widths(Item(Entry("a4", "x\n", "Hi"), Some(3), Some(-12))) + Close(false)
         == ", \"orig_w\": 3, \"fit_w\": -12 }\n"
  {
    SampleWidths();
    hide Width;
  }

  lemma {:induction false} SampleField(key: string, value: string, rest: string, text: string)
    requires text == Quoted(key) + ": " + Quoted(value)
    ensures Field(key, value, rest) == text + rest
  {
  }

  /** One such line, character by character. */
  lemma {:induction false} SampleLine()
    ensures ItemLine(Item(Entry("a4", "x\n", "Hi"), Some(3), Some(-12)), false) ==
      "  { " + ("\"src_hex\": \"a4\"" + (", " + ("\"src_jp\": \"x\\n\"" + (", " + ("\"target\": \"Hi\"" +
      ", \"orig_w\": 3, \"fit_w\": -12 }\n")))))
  {
    SampleTail();
    SampleEscapes();
    hide Escape, Widths, Close;
    var tail := ", \"orig_w\": 3, \"fit_w\": -12 }\n";
    SampleField("target", "Hi", tail, "\"target\": \"Hi\"");
    var second := ", " + Field("target", "Hi", tail);
    SampleField("src_jp", "x\\n", second, "\"src_jp\": \"x\\n\"");
    SampleField("src_hex", "a4", ", " + Field("src_jp", "x\\n", second), "\"src_hex\": \"a4\"");
    hide Field;
  }

  // ---- The loader ------------------------------------------------------------------

  predicate Has(data: string, p: int, s: string) {
    0 <= p && p + |s| <= |data| && forall k :: 0 <= k < |s| ==> data[p + k] == s[k]
  }

  /** std::string::find. |data| stands for npos: a match of a nonempty pattern starts before it. */
  function Find(data: string, pat: string, from: nat): (p: nat)
    requires pat != []
    ensures p <= |data|
    ensures p < |data| ==> from <= p && Has(data, p, pat)
    ensures forall m :: from <= m < p ==> !Has(data, m, pat)
    ensures p == |data| ==> forall m :: from <= m < |data| ==> !Has(data, m, pat)
    decreases |data| - from
  {
    if from >= |data| then |data| else if Has(data, from, pat) then from else Find(data, pat, from + 1)
  }

  function UnescapeChar(c: char): char {
    if c == 'n' then '\n' else if c == 't' then '\t' else c
  }

  /** From i up to the closing quote: the unescaped characters, and the position after the quote. */
  function Chars(data: string, i: nat): string
    decreases |data| - i
  {
    if i >= |data| || data[i] == '"' then []
    else if data[i] == '\\' && i + 1 < |data| then [UnescapeChar(data[i + 1])] + Chars(data, i + 2)
    else [data[i]] + Chars(data, i + 1)
  }

  function After(data: string, i: nat): nat
    decreases |data| - i
  {
    if i >= |data| then i
    else if data[i] == '"' then i + 1
    else if data[i] == '\\' && i + 1 < |data| then After(data, i + 2)
    else After(data, i + 1)
  }

  function ReadString(data: string, i: nat): (string, nat) {
    if i >= |data| || data[i] != '"' then ([], i) else (Chars(data, i + 1), After(data, i + 1))
  }

  /** The body of the loop: one character, or one escape sequence. */
  method ReadOne(data: string, i: nat) returns (c: char, next: nat)
    requires i < |data| && data[i] != '"'
    ensures i < next && Chars(data, i) == [c] + Chars(data, next) && After(data, i) == After(data, next)
  {
    c, next := data[i], i + 1;
    if c == '\\' && next < |data| {
      c, next := data[next], next + 1;
      if c == 'n' { c := '\n'; }
      else if c == 't' { c := '\t'; }
    }
  }

  lemma {:induction false} StringEnds(data: string, i: nat)
    requires i >= |data| || data[i] == '"'
    ensures Chars(data, i) == [] && After(data, i) == if i < |data| then i + 1 else i
  {
  }

  method JsonReadString(data: string, start: nat) returns (out: string, i: nat)
    ensures (out, i) == ReadString(data, start)
  {
    hide Chars, After;
    out, i := [], start;
    if i >= |data| || data[i] != '"' {
      return;
    }
    i := i + 1;
    while i < |data| && data[i] != '"'
      invariant start < i
      invariant Chars(data, start + 1) == out + Chars(data, i)
      invariant After(data, start + 1) == After(data, i)
      decreases |data| - i
    {
      var c, next := ReadOne(data, i);
      assert out + ([c] + Chars(data, next)) == (out + [c]) + Chars(data, next);
      out, i := out + [c], next;
    }
    StringEnds(data, i);
    assert out + [] == out;
    if i < |data| {
      i := i + 1;
    }
  }

  function HexVal(c: char): int {
    if '0' <= c <= '9' then c as int - '0' as int
    else if 'a' <= c <= 'f' then c as int - 'a' as int + 10
    else if 'A' <= c <= 'F' then c as int - 'A' as int + 10
    else -1
  }

  predicate HexPairs(hex: string) {
    |hex| < 2 || (HexVal(hex[0]) >= 0 && HexVal(hex[1]) >= 0 && HexPairs(hex[2..]))
  }

  // Pairs of digits; an odd last digit is ignored
  function PairValues(hex: string): seq<Byte>
    requires HexPairs(hex)
  {
    if |hex| < 2 then [] else [HexVal(hex[0]) * 16 + HexVal(hex[1])] + PairValues(hex[2..])
  }

  /** A bad digit anywhere discards all bytes. */
  function HexBytes(hex: string): seq<Byte> { if HexPairs(hex) then PairValues(hex) else [] }

  function DigitChar(n: nat): char
    requires n < 16
  {
    if n < 10 then (n + '0' as int) as char else (n - 10 + 'a' as int) as char
  }

  /** How a capture prints bytes: two lower-case digits each. */
  function Hex(bytes: seq<Byte>): string {
    if bytes == [] then [] else [DigitChar(bytes[0] / 16), DigitChar(bytes[0] % 16)] + Hex(bytes[1..])
  }

  function LowerChar(c: char): char {
    if 'A' <= c <= 'F' then (c as int - 'A' as int + 'a' as int) as char else c
  }

  // Hexadecimal digits in lower case
  function Lower(s: string): (r: string)
    ensures |r| == |s| && forall i :: 0 <= i < |s| ==> r[i] == LowerChar(s[i])
  {
    if s == [] then [] else [LowerChar(s[0])] + Lower(s[1..])
  }

  predicate HexDigits(hex: string) { forall c :: c in hex ==> HexVal(c) >= 0 }

  lemma {:induction false} DigitValue(c: char, n: nat)
    requires n < 16
    ensures LowerChar(c) == DigitChar(n) <==> HexVal(c) == n
  {
  }

  /** Decoding undoes printing, whether the digits are upper or lower case. */
  lemma {:induction false} HexRoundTrip(hex: string, bytes: seq<Byte>)
    requires Lower(hex) == Hex(bytes)
    ensures HexBytes(hex) == bytes && HexDigits(hex)
    decreases |bytes|
  {
    hide HexVal, LowerChar, DigitChar;
    if bytes != [] {
      var rest := Hex(bytes[1..]);
      var two := [DigitChar(bytes[0] / 16), DigitChar(bytes[0] % 16)];
      assert |hex| == 2 + |rest| && (two + rest)[2..] == rest;
      assert LowerChar(hex[0]) == (two + rest)[0] && LowerChar(hex[1]) == (two + rest)[1];
      DigitValue(hex[0], bytes[0] / 16);
      DigitValue(hex[1], bytes[0] % 16);
      assert Lower(hex[2..]) == Lower(hex)[2..];
      HexRoundTrip(hex[2..], bytes[1..]);
      assert hex == [hex[0], hex[1]] + hex[2..];
    }
  }

  /** And printing what was decoded gives back the digits, but for an odd last one. */
  lemma {:induction false} HexOfPairs(hex: string)
    requires HexPairs(hex)
    ensures Hex(PairValues(hex)) == Lower(hex[..|hex| / 2 * 2])
    decreases |hex|
  {
    hide HexVal, LowerChar, DigitChar;
    var even := hex[..|hex| / 2 * 2];
    if |hex| >= 2 {
      var rest := hex[2..];
      HexOfPairs(rest);
      HexOfPair(hex);
      assert even == [hex[0], hex[1]] + rest[..|rest| / 2 * 2];
      LowerOfPair(hex[0], hex[1], rest[..|rest| / 2 * 2]);
    }
  }

  lemma {:induction false} HexOfPair(hex: string)
    requires |hex| >= 2 && HexPairs(hex)
    ensures Hex(PairValues(hex)) == [LowerChar(hex[0]), LowerChar(hex[1])] + Hex(PairValues(hex[2..]))
  {
    hide HexVal, LowerChar, DigitChar;
    var hi, lo := HexVal(hex[0]), HexVal(hex[1]);
    DigitRange(hex[0]);
    DigitRange(hex[1]);
    Nibbles(hi, lo);
    DigitValue(hex[0], hi);
    DigitValue(hex[1], lo);
    assert PairValues(hex)[1..] == PairValues(hex[2..]);
  }

  lemma {:induction false} LowerOfPair(c: char, d: char, s: string)
    ensures Lower([c, d] + s) == [LowerChar(c), LowerChar(d)] + Lower(s)
  {
    hide LowerChar;
    assert [c, d] + s == [c] + ([d] + s) && ([c] + ([d] + s))[1..] == [d] + s && ([d] + s)[1..] == s;
  }

  lemma {:induction false} Nibbles(hi: nat, lo: nat)
    requires lo < 16
    ensures (hi * 16 + lo) / 16 == hi && (hi * 16 + lo) % 16 == lo
  {
  }

  lemma {:induction false} DigitRange(c: char)
    ensures HexVal(c) < 16
  {
  }

  lemma {:induction false} PairsAreDigits(hex: string)
    ensures HexPairs(hex) <==> HexDigits(hex[..|hex| / 2 * 2])
    decreases |hex|
  {
    hide HexVal;
    if |hex| >= 2 {
      var even, rest := hex[..|hex| / 2 * 2], hex[2..];
      PairsAreDigits(rest);
      assert even == [hex[0], hex[1]] + rest[..|rest| / 2 * 2];
      assert forall c :: c in even <==> c == hex[0] || c == hex[1] || c in rest[..|rest| / 2 * 2];
    }
  }

  lemma {:induction false} PairsFrom(hex: string, k: nat)
    requires k + 1 < |hex|
    ensures HexPairs(hex[k..]) <==> HexVal(hex[k]) >= 0 && HexVal(hex[k + 1]) >= 0 && HexPairs(hex[k + 2..])
    ensures HexPairs(hex[k..]) ==>
      PairValues(hex[k..]) == [HexVal(hex[k]) * 16 + HexVal(hex[k + 1])] + PairValues(hex[k + 2..])
  {
    hide HexVal;
    assert hex[k..][2..] == hex[k + 2..];
  }

  method DecodeHex(hex: string) returns (bytes: seq<Byte>)
    ensures bytes == HexBytes(hex)
    ensures var even := hex[..|hex| / 2 * 2];
            if HexDigits(even) then Hex(bytes) == Lower(even) else bytes == []
  {
    hide HexVal, HexPairs, PairValues, HexDigits;
    PairsAreDigits(hex);
    if HexPairs(hex) { HexOfPairs(hex); }
    bytes := [];
    var k := 0;
    assert hex[0..] == hex;
    while k + 1 < |hex|
      invariant 0 <= k <= |hex|
      invariant HexPairs(hex) == HexPairs(hex[k..])
      invariant HexPairs(hex) ==> PairValues(hex) == bytes + PairValues(hex[k..])
    {
      PairsFrom(hex, k);
      var hi, lo := HexVal(hex[k]), HexVal(hex[k + 1]);
      if hi < 0 || lo < 0 {
        return [];
      }
      DigitRange(hex[k]);
      DigitRange(hex[k + 1]);
      bytes := bytes + [hi * 16 + lo];
      k := k + 2;
    }
    NoPairs(hex[k..]);
  }

  lemma {:induction false} NoPairs(hex: string)
    requires |hex| < 2
    ensures HexPairs(hex) && PairValues(hex) == []
  {
  }

  const SRC := Quoted("src_hex")
  const TARGET := Quoted("target")

  // What the loader keeps of an entry: the target, and two optional widths that default to -1
  datatype Xlate = Xlate(target: string, origW: int, fitW: int)

  function Store(m: map<int, Xlate>, hash: seq<Byte> -> int, bytes: seq<Byte>, value: Xlate): map<int, Xlate> {
    if bytes != [] && value.target != [] then m[hash(bytes) := value] else m
  }

  /** The target looked up in the entry that ends at entryEnd, searching from q. */
  function TargetOf(data: string, q: nat, entryEnd: nat): string {
    var t := Find(data, TARGET, q);
    if t < entryEnd then
      var u := Find(data, "\"", t + 8);
      if u < |data| then ReadString(data, u).0 else []
    else []
  }

  predicate IsBlank(c: char) { c == ' ' || c == '\t' }

  predicate IsDigit(c: char) { '0' <= c <= '9' }

  function DigitOf(c: char): int { c as int - '0' as int }

  /** The first position in [p, end) that is not blank, or end. */
  function PastBlanks(data: string, p: nat, end: nat): (q: nat)
    requires p <= end <= |data|
    ensures p <= q <= end && (q < end ==> !IsBlank(data[q]))
    ensures forall k :: p <= k < q ==> IsBlank(data[k])
    decreases end - p
  {
    if p < end && IsBlank(data[p]) then PastBlanks(data, p + 1, end) else p
  }

  function PastDigits(data: string, p: nat, end: nat): (q: nat)
    requires p <= end <= |data|
    ensures p <= q <= end && (q < end ==> !IsDigit(data[q]))
    ensures forall k :: p <= k < q ==> IsDigit(data[k])
    decreases end - p
  {
    if p < end && IsDigit(data[p]) then PastDigits(data, p + 1, end) else p
  }

  // The number that decimal digits stand for
  function Decimal(s: string): int {
    if s == [] then 0 else Decimal(s[..|s| - 1]) * 10 + DigitOf(s[|s| - 1])
  }

  /** The integer that starts at p, before end. */
  function NumberAt(data: string, p: nat, end: nat, missing: int): int
    requires p <= end <= |data|
  {
    var b := PastBlanks(data, p, end);
    var negative := b < end && data[b] == '-';
    var d := if negative then b + 1 else b;
    if d >= end || !IsDigit(data[d]) then missing
    else
      var v := Decimal(data[d..PastDigits(data, d, end)]);
      if negative then -v else v
  }

  /** The integer field of an entry that ends at end, searching from start. */
  function ReadInt(data: string, key: string, start: nat, end: nat, missing: int): int
    requires end <= |data|
  {
    var p := Find(data, Quoted(key), start);
    if p >= end then missing
    else
      var c := Find(data, ":", p + |key| + 2);
      if c >= end then missing else NumberAt(data, c + 1, end, missing)
  }

  method SkipBlanks(data: string, from: nat, end: nat) returns (p: nat)
    requires from <= end <= |data|
    ensures p == PastBlanks(data, from, end)
  {
    hide IsBlank;
    p := from;
    while p < end && IsBlank(data[p])
      invariant from <= p <= end && PastBlanks(data, from, end) == PastBlanks(data, p, end)
    {
      p := p + 1;
    }
  }

  method ReadDigits(data: string, from: nat, end: nat) returns (v: int)
    requires from <= end <= |data|
    ensures v == Decimal(data[from..PastDigits(data, from, end)])
  {
    hide Decimal, IsDigit;
    var p := from;
    v := 0;
    DecimalOfNone(data[from..p]);
    while p < end && IsDigit(data[p])
      invariant from <= p <= end && PastDigits(data, from, end) == PastDigits(data, p, end)
      invariant v == Decimal(data[from..p])
    {
      DecimalSnoc(data[from..p], data[p]);
      assert data[from..p + 1] == data[from..p] + [data[p]];
      v := v * 10 + DigitOf(data[p]);
      p := p + 1;
    }
  }

  method JsonReadInt(data: string, key: string, start: nat, end: nat, missing: int) returns (v: int)
    requires end <= |data|
    ensures v == ReadInt(data, key, start, end, missing)
  {
    hide Find, Has, Decimal, PastBlanks, PastDigits;
    var p := Find(data, Quoted(key), start);
    if p >= end {
      return missing;
    }
    p := Find(data, ":", p + |key| + 2);
    if p >= end {
      return missing;
    }
    p := SkipBlanks(data, p + 1, end);
    var negative := p < end && data[p] == '-';
    if negative {
      p := p + 1;
    }
    if p >= end || !IsDigit(data[p]) {
      return missing;
    }
    v := ReadDigits(data, p, end);
    if negative {
      v := -v;
    }
  }

  lemma {:induction false} DecimalOfNone(s: string)
    requires s == []
    ensures Decimal(s) == 0
  {
  }

  lemma {:induction false} DecimalSnoc(s: string, c: char)
    ensures Decimal(s + [c]) == Decimal(s) * 10 + DigitOf(c)
  {
    assert (s + [c])[..|s|] == s;
  }

  /** What the loader stores for the entry that ends at entryEnd, searching from q. */
  function XlateOf(data: string, q: nat, entryEnd: nat): Xlate
    requires entryEnd <= |data|
  {
    Xlate(TargetOf(data, q, entryEnd),
          ReadInt(data, "orig_w", q, entryEnd, -1), ReadInt(data, "fit_w", q, entryEnd, -1))
  }

  /** The loader's loop from position i. */
  function LoadFrom(data: string, hash: seq<Byte> -> int, i: nat, m: map<int, Xlate>): map<int, Xlate>
    decreases |data| - i
  {
    var key := Find(data, SRC, i);
    if key == |data| then m
    else
      var entryEnd := Find(data, SRC, key + 9);
      var q := Find(data, "\"", key + 9);
      if q >= entryEnd then LoadFrom(data, hash, entryEnd, m)
      else
        var (hex, next) := ReadString(data, q);
        LoadFrom(data, hash, entryEnd, Store(m, hash, HexBytes(hex), XlateOf(data, next, entryEnd)))
  }

  lemma {:induction false} LoadEnds(data: string, hash: seq<Byte> -> int, i: nat, m: map<int, Xlate>)
    requires Find(data, SRC, i) == |data|
    ensures LoadFrom(data, hash, i, m) == m
  {
    hide Find;
  }

  // One turn of the loader's loop
  lemma {:induction false} LoadTurn(data: string, hash: seq<Byte> -> int, i: nat, m: map<int, Xlate>, key: nat,
                                    end: nat, q: nat)
    requires key < |data| && Find(data, SRC, i) == key && Find(data, SRC, key + 9) == end
    requires Find(data, "\"", key + 9) == q
    ensures i < end
    ensures q >= end ==> LoadFrom(data, hash, i, m) == LoadFrom(data, hash, end, m)
    ensures q < end ==>
      var (hex, next) := ReadString(data, q);
      LoadFrom(data, hash, i, m) ==
      LoadFrom(data, hash, end, Store(m, hash, HexBytes(hex), XlateOf(data, next, end)))
  {
    hide Find, Has, HexBytes, ReadString, XlateOf, Store;
  }

  method LoadTranslations(data: string, hash: seq<Byte> -> int) returns (m: map<int, Xlate>)
    ensures m == LoadFrom(data, hash, 0, map[])
  {
    hide Find, Has, HexBytes, ReadString, TargetOf, ReadInt, LoadFrom;
    m := map[];
    var i := 0;
    while true
      invariant 0 <= i
      invariant LoadFrom(data, hash, 0, map[]) == LoadFrom(data, hash, i, m)
      decreases |data| - i
    {
      var key := Find(data, SRC, i);
      if key == |data| {
        LoadEnds(data, hash, i, m);
        return;
      }
      var entryEnd := Find(data, SRC, key + 9);
      var q := Find(data, "\"", key + 9);
      LoadTurn(data, hash, i, m, key, entryEnd, q);
      i := entryEnd;
      if q >= entryEnd {
        continue;
      }
      var hex, next := JsonReadString(data, q);
      var bytes := DecodeHex(hex);
      var target := ReadTarget(data, next, entryEnd);
      var origW := JsonReadInt(data, "orig_w", next, entryEnd, -1);
      var fitW := JsonReadInt(data, "fit_w", next, entryEnd, -1);
      if bytes != [] && target != [] {
        m := m[hash(bytes) := Xlate(target, origW, fitW)];
      }
    }
  }

  method ReadTarget(data: string, q: nat, entryEnd: nat) returns (target: string)
    ensures target == TargetOf(data, q, entryEnd)
  {
    hide Find, ReadString;
    target := [];
    var t := Find(data, TARGET, q);
    if t < entryEnd {
      t := Find(data, "\"", t + 8);
      if t < |data| {
        var end;
        target, end := JsonReadString(data, t);
      }
    }
  }
}
