/** The optional widths behind the target of an entry: what the loader reads of them. */
module TranslationWidths {

  import opened Basics
  import opened TranslationFile
  import opened TranslationSearch

  // ---- Reading a number ------------------------------------------------------------------

  lemma {:induction false} DecimalOfDigits(n: nat)
    ensures Decimal(Digits(n)) == n
  {
    var front := if n < 10 then [] else Digits(n / 10);
    if n >= 10 { DecimalOfDigits(n / 10); }
    DecimalSnoc(front, (n % 10 + '0' as int) as char);
  }

  /** Whereas a width that stands in the file is read, with its sign. */
  lemma {:induction false} WidthReadsBack(data: string, key: string, n: int, start: nat, p: nat, end: nat)
    requires Find(data, Quoted(key), start) == p && Has(data, p, Quoted(key) + (": " + Numeral(n)))
    requires p + |key| + 4 + |Numeral(n)| <= end <= |data|
    requires var q := p + |key| + 4 + |Numeral(n)|; q < end ==> !IsDigit(data[q])
    ensures ReadInt(data, key, start, end, -1) == n
  {
    hide Find, Has, NumberAt, Numeral;
    var c := p + |key| + 2;
    HasTail(data, p, Quoted(key), ": " + Numeral(n));
    HasTail(data, c, ": ", Numeral(n));
    assert ": " == ":" + " ";
    HasTail(data, c, ":", " ");
    FoundHere(data, ":", c);
    SeenAt(data, c, ": ", 1);
    NumeralReads(data, c + 1, n, end);
  }

  lemma {:induction false} NumeralReads(data: string, p: nat, n: int, end: nat)
    requires p < end <= |data| && data[p] == ' ' && Has(data, p + 1, Numeral(n))
    requires p + 1 + |Numeral(n)| <= end
    requires var q := p + 1 + |Numeral(n)|; q < end ==> !IsDigit(data[q])
    ensures NumberAt(data, p, end, -1) == n
  {
    hide Has, Decimal, Digits, PastDigits, PastBlanks, NumberAt, IsDigit;
    if n < 0 {
      HasTail(data, p + 1, "-", Digits(-n));
      SeenAt(data, p + 1, "-", 0);
      DigitsRead(data, p + 2, -n, end);
      BlankBefore(data, p, end);
      NegativeAt(data, p, end);
    } else {
      DigitsRead(data, p + 1, n, end);
      DigitIsNoBlank(data[p + 1]);
      BlankBefore(data, p, end);
      PositiveAt(data, p, end);
    }
  }

  lemma {:induction false} DigitIsNoBlank(c: char)
    requires IsDigit(c)
    ensures !IsBlank(c)
  {
  }

  lemma {:induction false} DigitsRead(data: string, d: nat, n: nat, end: nat)
    requires Has(data, d, Digits(n)) && d + |Digits(n)| <= end <= |data|
    requires var q := d + |Digits(n)|; q < end ==> !IsDigit(data[q])
    ensures d < end && IsDigit(data[d]) && Decimal(data[d..PastDigits(data, d, end)]) == n
  {
    hide Has, Decimal, Digits, PastDigits, IsDigit;
    SeenAt(data, d, Digits(n), 0);
    assert Digits(n)[0] in Digits(n);
    DigitsReach(data, d, Digits(n), end);
    DecimalOfDigits(n);
  }

  lemma {:induction false} PositiveAt(data: string, p: nat, end: nat)
    requires p + 1 < end <= |data| && PastBlanks(data, p, end) == p + 1 && IsDigit(data[p + 1])
    ensures NumberAt(data, p, end, -1) == Decimal(data[p + 1..PastDigits(data, p + 1, end)])
  {
    hide Decimal, PastDigits, PastBlanks;
  }

  lemma {:induction false} NegativeAt(data: string, p: nat, end: nat)
    requires p + 2 < end <= |data| && PastBlanks(data, p, end) == p + 1
    requires data[p + 1] == '-' && IsDigit(data[p + 2])
    ensures NumberAt(data, p, end, -1) == -Decimal(data[p + 2..PastDigits(data, p + 2, end)])
  {
    hide Decimal, PastDigits, PastBlanks;
  }

  lemma {:induction false} BlankBefore(data: string, p: nat, end: nat)
    requires p < end <= |data| && data[p] == ' ' && (p + 1 < end ==> !IsBlank(data[p + 1]))
    ensures PastBlanks(data, p, end) == p + 1
  {
  }

  lemma {:induction false} DigitsReach(data: string, d: nat, digits: string, end: nat)
    requires Has(data, d, digits) && forall c :: c in digits ==> IsDigit(c)
    requires d + |digits| <= end <= |data| && (d + |digits| < end ==> !IsDigit(data[d + |digits|]))
    ensures PastDigits(data, d, end) == d + |digits| && data[d..d + |digits|] == digits
  {
    hide IsDigit;
    forall i | 0 <= i < |digits|
      ensures data[d + i] == digits[i] && digits[i] in digits
    {
      SeenAt(data, d, digits, i);
    }
    var q := PastDigits(data, d, end);
    assert forall k :: d <= k < d + |digits| ==> data[k] == digits[k - d] && IsDigit(data[k]);
  }

  // ---- The widths of one item ----------------------------------------------------------------

  // The first number behind position from
  function FirstNumber(data: string, from: nat, end: nat): int
    requires end <= |data|
  {
    var c := Find(data, ":", from);
    if c >= end then -1 else NumberAt(data, c + 1, end, -1)
  }

  function OrMissing(w: Option<int>): int { if w.Some? then w.value else -1 }

  // No quote and no colon between w and next, where there is no digit at w.
  ghost predicate Gap(data: string, w: nat, next: nat) {
    w < next <= |data| && data[w] == ' ' && Clear(data, "\"", w, next) && Clear(data, ":", w, next)
  }

  // The bytes that are read from the first quoted text behind x, if there is one: none
  predicate NoHexBehind(data: string, x: nat, next: nat) {
    var q := Find(data, "\"", x);
    q >= next || HexBytes(ReadString(data, q).0) == []
  }

  predicate IsWidth(key: string) { key == "orig_w" || key == "fit_w" }

  lemma {:induction false} WidthKeys(key: string)
    requires IsWidth(key)
    ensures IsKey(key) && NoQuote(key) && HexBytes(key) == [] && Escape(key) == key && ':' !in key
    ensures key != "src_hex" && key != "target" && key != ": "
  {
    KeysArePlain();
    KeysDiffer(key);
    KeyHasNoQuote(key);
    EscapeOfPlain(key);
  }

  // The pieces of a printed width at x
  lemma {:induction false} WidthParts(data: string, x: nat, key: string, n: int)
    requires Has(data, x, Width(key, n))
    ensures Has(data, x, ", ") && Has(data, x + 2, Quoted(key)) && Has(data, x + |key| + 4, ": ")
    ensures Has(data, x + |key| + 6, Numeral(n)) && Has(data, x + 2, Quoted(key) + (": " + Numeral(n)))
    ensures |Width(key, n)| == |key| + 6 + |Numeral(n)|
  {
    hide Has, Numeral;
    HasTail(data, x, ", ", Quoted(key) + (": " + Numeral(n)));
    HasTail(data, x + 2, Quoted(key), ": " + Numeral(n));
    HasTail(data, x + |key| + 4, ": ", Numeral(n));
  }

  lemma {:induction false} NumeralIsPlain(n: int)
    ensures NoQuote(Numeral(n)) && Numeral(n) != []
  {
    var d := Digits(if n < 0 then -n else n);
    assert '"' in d ==> IsDigit('"');
  }

  /** No other key matches in a printed width. */
  lemma {:induction false} WidthClear(data: string, x: nat, key: string, n: int, k: string)
    requires Has(data, x, Width(key, n)) && IsWidth(key) && IsKey(k) && k != key && k[0] != ':'
    ensures Clear(data, Quoted(k), x, x + |Width(key, n)|)
  {
    hide Has, Clear, Numeral;
    WidthParts(data, x, key, n);
    WidthKeys(key);
    NumeralIsPlain(n);
    var c := x + |key| + 3;
    ClearPlain(data, k, x, ", ");
    ClearQuoted(data, k, x + 2, key);
    ClearJoin(data, Quoted(k), x, x + 2, c);
    NoneBefore(data, c, ": ", k);
    ClearPlain(data, k, c + 1, ": ");
    ClearOne(data, Quoted(k), c);
    ClearJoin(data, Quoted(k), x, c, c + 1);
    ClearJoin(data, Quoted(k), x, c + 1, c + 3);
    ClearPlain(data, k, c + 3, Numeral(n));
    ClearJoin(data, Quoted(k), x, c + 3, c + 3 + |Numeral(n)|);
  }

  lemma {:induction false} ClearOne(data: string, pat: string, m: int)
    requires !Has(data, m, pat)
    ensures Clear(data, pat, m, m + 1)
  {
  }

  /** A printed width is found by its key, and is the first number and the first quoted text there. */
  lemma {:induction false} WidthRead(data: string, x: nat, key: string, n: int, end: nat)
    requires Has(data, x, Width(key, n)) && IsWidth(key)
    requires var y := x + |Width(key, n)|; y <= end <= |data| && (y < end ==> !IsDigit(data[y]))
    ensures ReadInt(data, key, x, end, -1) == n && FirstNumber(data, x, end) == n && NoHexBehind(data, x, end)
  {
    hide Has, Clear, Numeral, IsKey, ReadInt, FirstNumber, NoHexBehind;
    WidthParts(data, x, key, n);
    WidthKeys(key);
    KeyRead(data, x, key, n, end);
    NumberRead(data, x, key, n, end);
    QuoteRead(data, x, key, end);
  }

  lemma {:induction false} KeyRead(data: string, x: nat, key: string, n: int, end: nat)
    requires Has(data, x, ", ") && Has(data, x + 2, Quoted(key) + (": " + Numeral(n))) && NoQuote(key)
    requires var y := x + |key| + 6 + |Numeral(n)|; y <= end <= |data| && (y < end ==> !IsDigit(data[y]))
    ensures ReadInt(data, key, x, end, -1) == n
  {
    hide Has, Clear, Numeral, ReadInt, Find;
    HasTail(data, x + 2, Quoted(key), ": " + Numeral(n));
    ClearPlain(data, key, x, ", ");
    FindIs(data, Quoted(key), x, x + 2);
    WidthReadsBack(data, key, n, x, x + 2, end);
  }

  lemma {:induction false} NumberRead(data: string, x: nat, key: string, n: int, end: nat)
    requires Has(data, x, ", ") && Has(data, x + 2, Quoted(key)) && Has(data, x + |key| + 4, ": ") && ':' !in key
    requires Has(data, x + |key| + 6, Numeral(n))
    requires var y := x + |key| + 6 + |Numeral(n)|; y <= end <= |data| && (y < end ==> !IsDigit(data[y]))
    ensures FirstNumber(data, x, end) == n
  {
    hide Has, Clear, Numeral, NumberAt, Find;
    var c := x + |key| + 4;
    ClearOfColon(data, x, ", ");
    ClearOfColon(data, x + 2, Quoted(key));
    ClearJoin(data, ":", x, x + 2, c);
    assert ": " == ":" + " ";
    HasTail(data, c, ":", " ");
    HasBound(data, c, ": ");
    FindIs(data, ":", x, c);
    SeenAt(data, c, ": ", 1);
    NumeralReads(data, c + 1, n, end);
  }

  lemma {:induction false} QuoteRead(data: string, x: nat, key: string, end: nat)
    requires Has(data, x, ", ") && Has(data, x + 2, Quoted(key)) && Escape(key) == key && HexBytes(key) == []
    ensures NoHexBehind(data, x, end)
  {
    hide Has, Clear, Find, HexBytes, ReadString, Escape;
    ClearPlain(data, key, x, ", ");
    HasQuoted(data, x + 2, key);
    HasBound(data, x + 2, Quoted(key));
    FindIs(data, "\"", x, x + 2);
    ReadUndoesEscape(data, x + 2, key);
  }

  lemma {:induction false} ReadFurther(data: string, k: string, x: nat, y: nat, end: nat)
    requires x <= y <= |data| && Clear(data, Quoted(k), x, y) && end <= |data|
    ensures ReadInt(data, k, x, end, -1) == ReadInt(data, k, y, end, -1)
  {
    hide Find, Clear, NumberAt;
    FindFromClear(data, Quoted(k), x, y);
  }

  /** In the gap before the next entry there is nothing to read. */
  lemma {:induction false} GapReads(data: string, w: nat, next: nat, k: string)
    requires Gap(data, w, next)
    ensures ReadInt(data, k, w, next, -1) == -1 && FirstNumber(data, w, next) == -1 && NoHexBehind(data, w, next)
    ensures Clear(data, Quoted(k), w, next)
  {
    hide Find, Has, NumberAt, HexBytes, ReadString;
    NoQuoteNoMatch(data, k, w, next);
    FoundBeyond(data, Quoted(k), w, next);
    FoundBeyond(data, ":", w, next);
    FoundBeyond(data, "\"", w, next);
  }

  lemma {:induction false} FoundBeyond(data: string, pat: string, from: nat, next: nat)
    requires pat != [] && from <= next <= |data| && Clear(data, pat, from, next)
    ensures Find(data, pat, from) >= next
  {
    hide Find, Has;
  }

  // One optional width at x, with what follows it at y.
  lemma {:induction false} OptionalClear(data: string, x: nat, key: string, w: Option<int>, k: string)
    requires Has(data, x, OptionalWidth(key, w)) && IsWidth(key) && IsKey(k) && k != key && k[0] != ':'
    ensures Clear(data, Quoted(k), x, x + |OptionalWidth(key, w)|)
  {
    if w.Some? { WidthClear(data, x, key, w.value, k); }
  }

  /** Everything the loader may look for behind the target of a printed item. */
  lemma {:induction false} TailReads(data: string, x: nat, i: Item, next: nat)
    requires Has(data, x, Widths(i)) && Gap(data, x + |Widths(i)|, next)
    ensures ReadInt(data, "orig_w", x, next, -1) == OrMissing(i.origW)
    ensures ReadInt(data, "fit_w", x, next, -1) == OrMissing(i.fitW)
    ensures FirstNumber(data, x, next) == if i.origW.Some? then i.origW.value else OrMissing(i.fitW)
    ensures NoHexBehind(data, x, next) && Clear(data, SRC, x, next)
  {
    hide Has, Clear, IsKey, ReadInt, FirstNumber, NoHexBehind, Width;
    var o, f := OptionalWidth("orig_w", i.origW), OptionalWidth("fit_w", i.fitW);
    HasTail(data, x, o, f);
    var y, w := x + |o|, x + |o| + |f|;
    KeysArePlain();
    OptionalClear(data, x, "orig_w", i.origW, "fit_w");
    OptionalClear(data, x, "orig_w", i.origW, "src_hex");
    OptionalClear(data, y, "fit_w", i.fitW, "orig_w");
    OptionalClear(data, y, "fit_w", i.fitW, "src_hex");
    GapReads(data, w, next, "orig_w");
    GapReads(data, w, next, "fit_w");
    GapReads(data, w, next, "src_hex");
    ClearJoin(data, SRC, x, y, w);
    ClearJoin(data, SRC, x, w, next);
    ReadFurther(data, "fit_w", x, y, next);
    ReadFurther(data, "orig_w", y, w, next);
    SecondRead(data, y, i.fitW, next);
    if i.origW.Some? {
      NoDigitBehind(data, y, i.fitW);
      WidthRead(data, x, "orig_w", i.origW.value, next);
    }
  }

  lemma {:induction false} SecondRead(data: string, y: nat, w: Option<int>, next: nat)
    requires var f := OptionalWidth("fit_w", w); Has(data, y, f) && Gap(data, y + |f|, next)
    ensures ReadInt(data, "fit_w", y, next, -1) == OrMissing(w) && FirstNumber(data, y, next) == OrMissing(w)
    ensures NoHexBehind(data, y, next)
  {
    hide Has, Clear, ReadInt, FirstNumber, NoHexBehind, Width;
    if w.Some? {
      WidthRead(data, y, "fit_w", w.value, next);
    } else {
      GapReads(data, y, next, "fit_w");
    }
  }

  lemma {:induction false} NoDigitBehind(data: string, y: nat, w: Option<int>)
    requires var f := OptionalWidth("fit_w", w); Has(data, y, f) && y + |f| < |data| && data[y + |f|] == ' '
    ensures y < |data| && !IsDigit(data[y])
  {
    if w.Some? {
      WidthParts(data, y, "fit_w", w.value);
      SeenAt(data, y, ", ", 0);
    }
  }
}
