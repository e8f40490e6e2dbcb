/** Loading what was printed: exactly which translation each entry of translations.json ends up
    with, and when that is the intended one. */
module TranslationRoundTrip {

  import opened Basics
  import opened TranslationFile
  import opened TranslationSearch
  import opened TranslationWidths

  // ---- One printed line ---------------------------------------------------------------------

  lemma {:induction false} FieldParts(data: string, p: int, key: string, value: string, rest: string)
    requires Has(data, p, Field(key, value, rest))
    ensures Has(data, p, Quoted(key)) && Has(data, p + |key| + 1, Quoted(": "))
    ensures Has(data, p + |key| + 4, Quoted(value)) && Has(data, p + |key| + |value| + 6, rest)
  {
    hide Has;
    HasTail(data, p, Quoted(key), ": " + (Quoted(value) + rest));
    HasTail(data, p + |key| + 2, ": ", Quoted(value) + rest);
    HasTail(data, p + |key| + 4, Quoted(value), rest);
    HasQuoted(data, p, key);
    HasQuoted(data, p + |key| + 4, value);
    QuotedJoin(data, p + |key| + 1, ": ");
  }

  // Positions on the line at a: the opening and closing quotes of the three values
  datatype Marks = Marks(hexOpen: nat, hexClose: nat, jpOpen: nat, jpClose: nat, enOpen: nat, enClose: nat)

  function MarksOf(a: nat, e: Entry): Marks {
    var hexOpen := a + 15;
    var hexClose := hexOpen + 1 + |e.hex|;
    var jpOpen := hexClose + 13;
    var jpClose := jpOpen + 1 + |Escape(e.jp)|;
    var enOpen := jpClose + 13;
    Marks(hexOpen, hexClose, jpOpen, jpClose, enOpen, enOpen + 1 + |Escape(e.en)|)
  }

  /** The line at a, piece by piece. */
  ghost predicate LineAt(data: string, a: nat, e: Entry, tail: string) {
    var m := MarksOf(a, e);
    && Has(data, a, "  { ")
    && Has(data, a + 4, SRC) && Has(data, a + 12, Quoted(": "))
    && Has(data, m.hexOpen, Quoted(e.hex)) && Has(data, m.hexClose, Quoted(", "))
    && Has(data, m.hexClose + 3, Quoted("src_jp")) && Has(data, m.hexClose + 10, Quoted(": "))
    && Has(data, m.jpOpen, Quoted(Escape(e.jp))) && Has(data, m.jpClose, Quoted(", "))
    && Has(data, m.jpClose + 3, TARGET) && Has(data, m.jpClose + 10, Quoted(": "))
    && Has(data, m.enOpen, Quoted(Escape(e.en))) && Has(data, m.enClose + 1, tail)
  }

  lemma {:induction false} CommaBetween(data: string, x: int, rest: string, key: string)
    requires Has(data, x, "\"") && Has(data, x + 1, ", " + rest) && Has(data, x + 3, Quoted(key))
    ensures Has(data, x, Quoted(", "))
  {
    HasTail(data, x + 1, ", ", rest);
    HasQuoted(data, x + 3, key);
    QuotedJoin(data, x, ", ");
  }

  lemma {:induction false} LineParts(data: string, a: nat, e: Entry, tail: string)
    requires Has(data, a, LineWith(e, tail))
    ensures LineAt(data, a, e, tail)
  {
    hide Has, Field, Quoted, Escape;
    var en := Field("target", Escape(e.en), tail);
    var jp := Field("src_jp", Escape(e.jp), ", " + en);
    var m := MarksOf(a, e);
    HasTail(data, a, "  { ", Field("src_hex", e.hex, ", " + jp));
    FieldParts(data, a + 4, "src_hex", e.hex, ", " + jp);
    HasTail(data, m.hexClose + 1, ", ", jp);
    FieldParts(data, m.hexClose + 3, "src_jp", Escape(e.jp), ", " + en);
    HasTail(data, m.jpClose + 1, ", ", en);
    FieldParts(data, m.jpClose + 3, "target", Escape(e.en), tail);
    HasQuoted(data, m.hexOpen, e.hex);
    CommaBetween(data, m.hexClose, jp, "src_jp");
    HasQuoted(data, m.jpOpen, Escape(e.jp));
    CommaBetween(data, m.jpClose, en, "target");
  }

  // ---- What the searches find on a line ---------------------------------------------------------

  /** Between the key and the value of the second field no quoted key matches. */
  lemma {:induction false} ClearFront(data: string, a: nat, e: Entry, tail: string, k: string)
    requires LineAt(data, a, e, tail) && IsKey(k) && k in {"src_hex", "target", "orig_w", "fit_w"}
    requires NoQuote(e.hex) && e.hex != k
    ensures var m := MarksOf(a, e);
            Clear(data, Quoted(k), a + 12, m.jpOpen)
  {
    hide Has, Clear, Escape;
    var m := MarksOf(a, e);
    KeysDiffer(k);
    ClearQuoted(data, k, a + 12, ": ");
    ClearQuoted(data, k, m.hexOpen, e.hex);
    ClearJoin(data, Quoted(k), a + 12, m.hexOpen, m.hexClose);
    ClearQuoted(data, k, m.hexClose, ", ");
    ClearJoin(data, Quoted(k), a + 12, m.hexClose, m.hexClose + 3);
    ClearQuoted(data, k, m.hexClose + 3, "src_jp");
    ClearJoin(data, Quoted(k), a + 12, m.hexClose + 3, m.hexClose + 10);
    ClearQuoted(data, k, m.hexClose + 10, ": ");
    ClearJoin(data, Quoted(k), a + 12, m.hexClose + 10, m.jpOpen);
  }

  /** What follows the target holds no key of an entry, nor anything that could be taken for a captured
      string, up to `next`, where the next entry's key or the end of the file is. */
  ghost predicate NextKey(data: string, from: nat, next: nat) {
    && from < next <= |data| && (next == |data| || Has(data, next, SRC))
    && Clear(data, SRC, from, next) && NoHexBehind(data, from, next)
  }

  predicate IsTail(tail: string) { tail != [] && (tail[0] == ' ' || tail[0] == ',') }

  /** Past the closing quote of the target no entry's key matches up to the next entry. */
  lemma {:induction false} ClearBack(data: string, a: nat, e: Entry, tail: string, next: nat)
    requires LineAt(data, a, e, tail) && IsTail(tail) && NextKey(data, MarksOf(a, e).enClose + 1, next)
    ensures Clear(data, SRC, MarksOf(a, e).enClose, next)
  {
    hide Escape, NoHexBehind;
    NoneBefore(data, MarksOf(a, e).enClose, tail, "src_hex");
  }

  // Where the search for the next entry's key ends, from just past src_jp
  function NextFound(a: nat, e: Entry, next: nat): int {
    if Fakes(e.en, "src_hex") then MarksOf(a, e).enClose - 8 else next
  }

  lemma {:induction false} ClearMiddle(data: string, a: nat, e: Entry, tail: string)
    requires LineAt(data, a, e, tail)
    ensures Clear(data, SRC, MarksOf(a, e).jpClose, MarksOf(a, e).enOpen)
  {
    hide Has, Clear, Escape, IsKey;
    var m := MarksOf(a, e);
    KeysArePlain();
    ClearQuoted(data, "src_hex", m.jpClose, ", ");
    ClearQuoted(data, "src_hex", m.jpClose + 3, "target");
    ClearJoin(data, SRC, m.jpClose, m.jpClose + 3, m.jpClose + 10);
    ClearQuoted(data, "src_hex", m.jpClose + 10, ": ");
    ClearJoin(data, SRC, m.jpClose, m.jpClose + 10, m.enOpen);
  }

  lemma {:induction false} SrcPastJp(data: string, a: nat, e: Entry, tail: string, next: nat)
    requires LineAt(data, a, e, tail) && IsTail(tail) && NextKey(data, MarksOf(a, e).enClose + 1, next)
    ensures Find(data, SRC, MarksOf(a, e).enClose + 1) == next
    ensures NextFound(a, e, next) >= MarksOf(a, e).enOpen
    ensures Find(data, SRC, MarksOf(a, e).jpClose + 1) == NextFound(a, e, next)
    ensures Clear(data, SRC, MarksOf(a, e).jpClose, NextFound(a, e, next))
    ensures NextFound(a, e, next) == |data| || Has(data, NextFound(a, e, next), SRC)
  {
    hide Has, Clear, Find, Escape, Fakes, IsKey;
    var m := MarksOf(a, e);
    ClearBack(data, a, e, tail, next);
    ClearTo(data, SRC, m.enClose, m.enClose + 1, next);
    FindIs(data, SRC, m.enClose + 1, next);
    KeysArePlain();
    ClearMiddle(data, a, e, tail);
    ClearValue(data, "src_hex", m.enOpen, e.en);
    if !Fakes(e.en, "src_hex") {
      ClearJoin(data, SRC, m.enOpen, m.enClose, next);
    }
    ClearJoin(data, SRC, m.jpClose, m.enOpen, NextFound(a, e, next));
    ClearTo(data, SRC, m.jpClose, m.jpClose + 1, NextFound(a, e, next));
    HasBound(data, m.enClose - 8, SRC);
    FindIs(data, SRC, m.jpClose + 1, NextFound(a, e, next));
  }

  /** The search for the next key from this entry's key: a src_jp that fakes the key is found first. */
  lemma {:induction false} SrcPastKey(data: string, a: nat, e: Entry, tail: string, next: nat)
    requires LineAt(data, a, e, tail) && IsTail(tail) && NextKey(data, MarksOf(a, e).enClose + 1, next)
    requires NoQuote(e.hex) && e.hex != "src_hex"
    ensures Find(data, SRC, a) == a + 4
    ensures Find(data, SRC, a + 13) ==
            if Fakes(e.jp, "src_hex") then MarksOf(a, e).jpClose - 8 else NextFound(a, e, next)
    ensures Fakes(e.jp, "src_hex") ==> MarksOf(a, e).jpClose - 8 >= MarksOf(a, e).jpOpen
  {
    var m := MarksOf(a, e);
    hide Has, Clear, Find, Escape;
    KeysArePlain();
    ClearPlain(data, "src_hex", a, "  { ");
    HasBound(data, a + 4, SRC);
    FindIs(data, SRC, a, a + 4);
    ClearFront(data, a, e, tail, "src_hex");
    ClearTo(data, SRC, a + 12, a + 13, m.jpOpen);
    ClearValue(data, "src_hex", m.jpOpen, e.jp);
    SrcPastJp(data, a, e, tail, next);
    if Fakes(e.jp, "src_hex") {
      ClearJoin(data, SRC, a + 13, m.jpOpen, m.jpClose - 8);
      HasBound(data, m.jpClose - 8, SRC);
      FindIs(data, SRC, a + 13, m.jpClose - 8);
    } else {
      ClearJoin(data, SRC, a + 13, m.jpOpen, m.jpClose);
      ClearJoin(data, SRC, a + 13, m.jpClose, NextFound(a, e, next));
      FindIs(data, SRC, a + 13, NextFound(a, e, next));
    }
  }

  /** The search for the target: a src_jp that fakes it is found first. */
  lemma {:induction false} TargetPastHex(data: string, a: nat, e: Entry, tail: string)
    requires LineAt(data, a, e, tail) && NoQuote(e.hex) && e.hex != "target"
    ensures var m := MarksOf(a, e);
            Find(data, TARGET, m.hexClose + 1) == if Fakes(e.jp, "target") then m.jpClose - 7 else m.jpClose + 3
    ensures Fakes(e.jp, "target") ==> MarksOf(a, e).jpClose - 7 >= MarksOf(a, e).jpOpen
  {
    var m := MarksOf(a, e);
    hide Has, Clear, Find, Escape;
    KeysArePlain();
    ClearFront(data, a, e, tail, "target");
    ClearTo(data, TARGET, a + 12, m.hexClose + 1, m.jpOpen);
    ClearValue(data, "target", m.jpOpen, e.jp);
    HasBound(data, m.jpClose + 3, TARGET);
    if Fakes(e.jp, "target") {
      ClearJoin(data, TARGET, m.hexClose + 1, m.jpOpen, m.jpClose - 7);
      FindIs(data, TARGET, m.hexClose + 1, m.jpClose - 7);
    } else {
      ClearJoin(data, TARGET, m.hexClose + 1, m.jpOpen, m.jpClose);
      ClearQuoted(data, "target", m.jpClose, ", ");
      ClearJoin(data, TARGET, m.hexClose + 1, m.jpClose, m.jpClose + 3);
      FindIs(data, TARGET, m.hexClose + 1, m.jpClose + 3);
    }
  }

  lemma {:induction false} QuotesFound(data: string, a: nat, e: Entry, tail: string)
    requires LineAt(data, a, e, tail)
    ensures var m := MarksOf(a, e);
            && Find(data, "\"", a + 13) == m.hexOpen && Find(data, "\"", m.jpClose + 1) == m.jpClose + 3
            && Find(data, "\"", m.jpClose + 11) == m.enOpen
  {
    hide Find, Has, Escape;
    var m := MarksOf(a, e);
    QuoteAfter(data, a + 12, ": ");
    QuoteAfter(data, m.jpClose, ", ");
    QuoteAfter(data, m.jpClose + 10, ": ");
  }

  // ---- What an entry ends up with ------------------------------------------------------------------

  /** The target the loader stores for a printed entry. A src_jp that fakes the src_hex key ends the entry
      before its target; one that fakes the target key makes the loader read the key as the value. */
  function Loaded(e: Entry): string {
    if Fakes(e.jp, "src_hex") then [] else if Fakes(e.jp, "target") then "target" else e.en
  }

  // A translation without widths
  function Unsized(target: string): Xlate { Xlate(target, -1, -1) }

  function WidthOf(i: Item, key: string): int { OrMissing(if key == "orig_w" then i.origW else i.fitW) }

  function FirstWidth(i: Item): int { if i.origW.Some? then i.origW.value else OrMissing(i.fitW) }

  /** The width the loader stores. A text that fakes the width's key hides the width: behind src_jp there is a
      text and no number, behind the target there is the first width, whichever it is. */
  function WidthLoaded(i: Item, key: string): int {
    if Fakes(i.entry.jp, "src_hex") || Fakes(i.entry.en, "src_hex") || Fakes(i.entry.jp, key) then -1
    else if Fakes(i.entry.en, key) then FirstWidth(i)
    else WidthOf(i, key)
  }

  function XlateLoaded(i: Item): Xlate {
    Xlate(Loaded(i.entry), WidthLoaded(i, "orig_w"), WidthLoaded(i, "fit_w"))
  }

  function Apply(m: map<int, Xlate>, hash: seq<Byte> -> int, i: Item): map<int, Xlate> {
    Store(m, hash, HexBytes(i.entry.hex), XlateLoaded(i))
  }

  lemma {:induction false} HexIsNoKey(hex: string)
    requires HexDigits(hex)
    ensures NoQuote(hex) && hex != "src_hex" && hex != "target" && hex != "orig_w" && hex != "fit_w"
  {
    assert '"' in hex ==> HexVal('"') >= 0;
    assert hex != [] ==> HexVal(hex[|hex| - 1]) >= 0;
    assert HexVal("src_hex"[6]) == HexVal("target"[5]) == HexVal("orig_w"[5]) == HexVal("fit_w"[4]) == -1;
  }

  lemma {:induction false} FakesOneKey(v: string)
    ensures !(Fakes(v, "src_hex") && Fakes(v, "target"))
  {
    var q := "\"" + v;
    if Fakes(v, "src_hex") { EndsWithSaysLast(q, "\"src_hex"); }
    if Fakes(v, "target") { EndsWithSaysLast(q, "\"target"); }
  }

  lemma {:induction false} LoadSkips(data: string, hash: seq<Byte> -> int, i: nat, j: nat, m: map<int, Xlate>)
    requires i <= j && Find(data, SRC, i) == Find(data, SRC, j)
    ensures LoadFrom(data, hash, i, m) == LoadFrom(data, hash, j, m)
  {
    hide Find, Has, HexBytes, ReadString, XlateOf, Store;
  }

  lemma {:induction false} ReadHexValue(data: string, x: nat, hex: string)
    requires Has(data, x, Quoted(hex)) && HexDigits(hex)
    ensures ReadString(data, x) == (hex, x + |hex| + 2)
  {
    PlainHex(hex);
    EscapeOfPlain(hex);
    ReadUndoesEscape(data, x, hex);
  }

  lemma {:induction false} PlainHex(hex: string)
    requires HexDigits(hex)
    ensures Plain(hex)
  {
  }

  /** After a match that ends in the closing quote of the target, or of src_jp, the loader stores nothing
      and goes on with the next entry. */
  lemma {:induction false} SpuriousInTarget(data: string, hash: seq<Byte> -> int, a: nat, e: Entry, tail: string,
                                            next: nat, m: map<int, Xlate>)
    requires LineAt(data, a, e, tail) && IsTail(tail) && NextKey(data, MarksOf(a, e).enClose + 1, next)
    ensures LoadFrom(data, hash, NextFound(a, e, next), m) == LoadFrom(data, hash, next, m)
  {
    hide Find, Has, Clear, Escape, LoadFrom, XlateOf, HexBytes, ReadString;
    if Fakes(e.en, "src_hex") {
      var d := MarksOf(a, e).enClose;
      HasBound(data, d + 1, tail);
      SrcPastJp(data, a, e, tail, next);
      FoundHere(data, SRC, d - 8);
      LoadTurn(data, hash, d - 8, m, d - 8, next, Find(data, "\"", d + 1));
    }
  }

  lemma {:induction false} SpuriousInJp(data: string, hash: seq<Byte> -> int, a: nat, e: Entry, tail: string, next: nat,
                                        m: map<int, Xlate>)
    requires LineAt(data, a, e, tail) && IsTail(tail) && NextKey(data, MarksOf(a, e).enClose + 1, next)
    requires Fakes(e.jp, "src_hex")
    ensures LoadFrom(data, hash, MarksOf(a, e).jpClose - 8, m) == LoadFrom(data, hash, next, m)
  {
    hide Find, Has, Clear, Escape, LoadFrom, HexBytes, ReadString, XlateOf;
    var c := MarksOf(a, e).jpClose;
    KeysArePlain();
    ClearValue(data, "src_hex", MarksOf(a, e).jpOpen, e.jp);
    FoundHere(data, SRC, c - 8);
    SrcPastJp(data, a, e, tail, next);
    QuotesFound(data, a, e, tail);
    ReadKeyAsValue(data, c + 3);
    LoadTurn(data, hash, c - 8, m, c - 8, NextFound(a, e, next), c + 3);
    SpuriousInTarget(data, hash, a, e, tail, next, m);
  }

  lemma {:induction false} ReadKeyAsValue(data: string, x: nat)
    requires Has(data, x, TARGET)
    ensures ReadString(data, x).0 == "target" && HexBytes("target") == []
  {
    KeysArePlain();
    EscapeOfPlain("target");
    ReadUndoesEscape(data, x, "target");
  }

  /** The target that the loader reads for this entry. */
  lemma {:induction false} TargetRead(data: string, a: nat, e: Entry, tail: string, next: nat, end: nat)
    requires LineAt(data, a, e, tail) && IsTail(tail) && NextKey(data, MarksOf(a, e).enClose + 1, next)
    requires HexDigits(e.hex)
    requires end == if Fakes(e.jp, "src_hex") then MarksOf(a, e).jpClose - 8 else NextFound(a, e, next)
    ensures TargetOf(data, MarksOf(a, e).hexClose + 1, end) == Loaded(e)
  {
    hide Find, Has, Clear, Escape, Fakes, ReadString;
    var m := MarksOf(a, e);
    HexIsNoKey(e.hex);
    TargetPastHex(data, a, e, tail);
    QuotesFound(data, a, e, tail);
    SrcPastJp(data, a, e, tail, next);
    FakesOneKey(e.jp);
    ReadKeyAsValue(data, m.jpClose + 3);
    ReadUndoesEscape(data, m.enOpen, e.en);
    HasBound(data, m.enOpen, Quoted(Escape(e.en)));
  }

  lemma {:induction false} EntryEnds(data: string, a: nat, e: Entry, tail: string, next: nat, end: nat)
    requires LineAt(data, a, e, tail) && IsTail(tail) && NextKey(data, MarksOf(a, e).enClose + 1, next)
    requires end == if Fakes(e.jp, "src_hex") then MarksOf(a, e).jpClose - 8 else NextFound(a, e, next)
    ensures end < MarksOf(a, e).jpClose || MarksOf(a, e).enOpen <= end
    ensures end <= next <= |data| && MarksOf(a, e).enClose + 1 < next
  {
    hide Find, Has, Clear, Escape, Fakes;
    SrcPastJp(data, a, e, tail, next);
  }

  lemma {:induction false} NoneBetween(data: string, a: nat, e: Entry, tail: string, k: string)
    requires LineAt(data, a, e, tail) && NoQuote(e.hex) && e.hex != k && k in {"orig_w", "fit_w"}
    ensures Clear(data, Quoted(k), MarksOf(a, e).hexClose + 1, MarksOf(a, e).jpOpen)
    ensures Clear(data, Quoted(k), MarksOf(a, e).jpClose, MarksOf(a, e).enOpen)
  {
    hide Has, Clear, Escape, IsKey;
    var m := MarksOf(a, e);
    KeysArePlain();
    KeysDiffer(k);
    ClearFront(data, a, e, tail, k);
    ClearTo(data, Quoted(k), a + 12, m.hexClose + 1, m.jpOpen);
    ClearQuoted(data, k, m.jpClose, ", ");
    ClearQuoted(data, k, m.jpClose + 3, "target");
    ClearJoin(data, Quoted(k), m.jpClose, m.jpClose + 3, m.jpClose + 10);
    ClearQuoted(data, k, m.jpClose + 10, ": ");
    ClearJoin(data, Quoted(k), m.jpClose, m.jpClose + 10, m.enOpen);
  }

  /** The first colon after src_jp introduces the target, which is no number. */
  lemma {:induction false} TextIsNoNumber(data: string, c: nat, value: string, end: nat)
    requires Has(data, c, Quoted(", ")) && Has(data, c + 3, TARGET) && Has(data, c + 10, Quoted(": "))
    requires Has(data, c + 13, Quoted(value)) && c + 13 <= end <= |data|
    ensures Find(data, ":", c + 1) == c + 11 && NumberAt(data, c + 12, end, -1) == -1
  {
    hide Find;
    ClearOfColon(data, c, Quoted(", "));
    ClearOfColon(data, c + 3, TARGET);
    assert data[c + 10 + 1] == Quoted(": ")[1] && data[c + 10 + 2] == Quoted(": ")[2];
    assert data[c + 13 + 0] == Quoted(value)[0];
    FindIs(data, ":", c + 1, c + 11);
    assert PastBlanks(data, c + 12, end) == c + 13;
  }

  // Where a key matches first, from behind the hexadecimal text
  lemma {:induction false} WidthFound(data: string, a: nat, e: Entry, tail: string, k: string)
    requires LineAt(data, a, e, tail) && IsTail(tail) && NoQuote(e.hex) && e.hex != k && k in {"orig_w", "fit_w"}
    ensures var m := MarksOf(a, e);
            && m.enClose + 1 < |data|
            && (Fakes(e.jp, k) ==> Find(data, Quoted(k), m.hexClose + 1) == m.jpClose - |k| - 1)
            && (!Fakes(e.jp, k) && Fakes(e.en, k) ==> Find(data, Quoted(k), m.hexClose + 1) == m.enClose - |k| - 1)
            && (!Fakes(e.jp, k) && !Fakes(e.en, k) ==> Clear(data, Quoted(k), m.hexClose + 1, m.enClose + 1))
  {
    hide Has, Clear, Escape, IsKey, Find, Fakes;
    var m := MarksOf(a, e);
    KeysArePlain();
    KeysDiffer(k);
    HasBound(data, m.enClose + 1, tail);
    NoneBetween(data, a, e, tail, k);
    ClearValue(data, k, m.jpOpen, e.jp);
    ClearValue(data, k, m.enOpen, e.en);
    if Fakes(e.jp, k) {
      ClearJoin(data, Quoted(k), m.hexClose + 1, m.jpOpen, m.jpClose - |k| - 1);
      HasBound(data, m.jpClose - |k| - 1, Quoted(k));
      FindIs(data, Quoted(k), m.hexClose + 1, m.jpClose - |k| - 1);
    } else {
      ClearJoin(data, Quoted(k), m.hexClose + 1, m.jpOpen, m.jpClose);
      ClearJoin(data, Quoted(k), m.hexClose + 1, m.jpClose, m.enOpen);
      if Fakes(e.en, k) {
        ClearJoin(data, Quoted(k), m.hexClose + 1, m.enOpen, m.enClose - |k| - 1);
        HasBound(data, m.enClose - |k| - 1, Quoted(k));
        FindIs(data, Quoted(k), m.hexClose + 1, m.enClose - |k| - 1);
      } else {
        NoneBefore(data, m.enClose, tail, k);
        ClearOne(data, Quoted(k), m.enClose);
        ClearJoin(data, Quoted(k), m.hexClose + 1, m.enOpen, m.enClose);
        ClearJoin(data, Quoted(k), m.hexClose + 1, m.enClose, m.enClose + 1);
      }
    }
  }

  /** What the loader reads for a width key on a line. */
  lemma {:induction false} WidthOnLine(data: string, a: nat, e: Entry, tail: string, next: nat, end: nat, k: string)
    requires LineAt(data, a, e, tail) && IsTail(tail) && NextKey(data, MarksOf(a, e).enClose + 1, next)
    requires NoQuote(e.hex) && e.hex != k && k in {"orig_w", "fit_w"}
    requires end == if Fakes(e.jp, "src_hex") then MarksOf(a, e).jpClose - 8 else NextFound(a, e, next)
    ensures end <= |data| && ReadInt(data, k, MarksOf(a, e).hexClose + 1, end, -1) ==
            if Fakes(e.jp, "src_hex") || Fakes(e.en, "src_hex") || Fakes(e.jp, k) then -1
            else if Fakes(e.en, k) then FirstNumber(data, MarksOf(a, e).enClose + 1, next)
            else ReadInt(data, k, MarksOf(a, e).enClose + 1, next, -1)
  {
    hide Find, Has, Clear, Escape, FirstNumber, ReadInt, Fakes, LineAt, NextKey;
    var m := MarksOf(a, e);
    EntryEnds(data, a, e, tail, next, end);
    WidthFound(data, a, e, tail, k);
    assert |k| == 5 || |k| == 6;
    if Fakes(e.jp, k) {
      TextBehindJp(data, a, e, tail, end);
      FoundAt(data, k, m.hexClose + 1, m.jpClose - |k| - 1, end);
    } else if Fakes(e.en, k) {
      FoundAt(data, k, m.hexClose + 1, m.enClose - |k| - 1, end);
    } else {
      FoundBeyond(data, Quoted(k), m.hexClose + 1, m.enClose + 1);
      NotFound(data, k, m.hexClose + 1, end);
      ReadFurther(data, k, m.hexClose + 1, m.enClose + 1, next);
    }
  }

  lemma {:induction false} FoundAt(data: string, k: string, from: nat, p: nat, end: nat)
    requires Find(data, Quoted(k), from) == p && end <= |data|
    ensures ReadInt(data, k, from, end, -1) == if p >= end then -1 else FirstNumber(data, p + |k| + 2, end)
  {
    hide Find, NumberAt;
  }

  lemma {:induction false} NotFound(data: string, k: string, from: nat, end: nat)
    requires end <= |data|
    ensures Find(data, Quoted(k), from) >= end ==> ReadInt(data, k, from, end, -1) == -1
  {
    hide Find, NumberAt;
  }

  lemma {:induction false} TextBehindJp(data: string, a: nat, e: Entry, tail: string, end: nat)
    requires LineAt(data, a, e, tail) && end <= |data|
    ensures MarksOf(a, e).enOpen <= end ==> FirstNumber(data, MarksOf(a, e).jpClose + 1, end) == -1
  {
    hide Find, Has, Escape, NumberAt;
    if MarksOf(a, e).enOpen <= end { TextIsNoNumber(data, MarksOf(a, e).jpClose, Escape(e.en), end); }
  }

  // ---- One printed item ---------------------------------------------------------------------------

  /** The item printed at a, and where the next entry's key, or the end of the file, is. */
  ghost predicate ItemAt(data: string, a: nat, i: Item, more: bool, next: nat) {
    && LineAt(data, a, i.entry, Widths(i) + Close(more))
    && Gap(data, MarksOf(a, i.entry).enClose + 1 + |Widths(i)|, next) && (next == |data| || Has(data, next, SRC))
  }

  lemma {:induction false} ItemTail(data: string, a: nat, i: Item, more: bool, next: nat)
    requires ItemAt(data, a, i, more, next)
    ensures IsTail(Widths(i) + Close(more)) && NextKey(data, MarksOf(a, i.entry).enClose + 1, next)
    ensures ReadInt(data, "orig_w", MarksOf(a, i.entry).enClose + 1, next, -1) == OrMissing(i.origW)
    ensures ReadInt(data, "fit_w", MarksOf(a, i.entry).enClose + 1, next, -1) == OrMissing(i.fitW)
    ensures FirstNumber(data, MarksOf(a, i.entry).enClose + 1, next) == FirstWidth(i)
  {
    hide Has, Clear, Escape, Numeral, ReadInt, FirstNumber, NoHexBehind;
    var x := MarksOf(a, i.entry).enClose + 1;
    HasTail(data, x, Widths(i), Close(more));
    TailReads(data, x, i, next);
    assert Widths(i) == [] || Widths(i)[0] == ',';
  }

  lemma {:induction false} EntryRead(data: string, a: nat, i: Item, more: bool, next: nat, end: nat)
    requires ItemAt(data, a, i, more, next) && HexDigits(i.entry.hex)
    requires end ==
             if Fakes(i.entry.jp, "src_hex") then MarksOf(a, i.entry).jpClose - 8 else NextFound(a, i.entry, next)
    ensures end <= |data| && XlateOf(data, MarksOf(a, i.entry).hexClose + 1, end) == XlateLoaded(i)
  {
    hide Find, Has, Clear, Escape, Fakes, ReadInt, TargetOf, LineAt, NextKey, Loaded, Gap, Widths, IsTail, FirstNumber;
    var e, tail := i.entry, Widths(i) + Close(more);
    HexIsNoKey(e.hex);
    ItemTail(data, a, i, more, next);
    EntryEnds(data, a, e, tail, next, end);
    TargetRead(data, a, e, tail, next, end);
    WidthOnLine(data, a, e, tail, next, end, "orig_w");
    WidthOnLine(data, a, e, tail, next, end, "fit_w");
  }

  /** The loader handles one printed item as the table says. */
  lemma {:induction false} LineLoads(data: string, hash: seq<Byte> -> int, a: nat, i: Item, more: bool, next: nat,
                                     m: map<int, Xlate>)
    requires ItemAt(data, a, i, more, next) && HexDigits(i.entry.hex)
    ensures LoadFrom(data, hash, a, m) == LoadFrom(data, hash, next, Apply(m, hash, i))
  {
    hide Find, Has, Clear, Escape, LoadFrom, HexBytes, Fakes, XlateOf, ReadString, XlateLoaded, Gap, Widths, NextKey,
      IsTail;
    var e, tail, mk := i.entry, Widths(i) + Close(more), MarksOf(a, i.entry);
    var end := if Fakes(e.jp, "src_hex") then mk.jpClose - 8 else NextFound(a, e, next);
    ItemTail(data, a, i, more, next);
    HexIsNoKey(e.hex);
    ReadHexValue(data, mk.hexOpen, e.hex);
    HasBound(data, a + 4, SRC);
    SrcPastKey(data, a, e, tail, next);
    SrcPastJp(data, a, e, tail, next);
    QuotesFound(data, a, e, tail);
    EntryRead(data, a, i, more, next, end);
    LoadTurn(data, hash, a, m, a + 4, end, mk.hexOpen);
    if Fakes(e.jp, "src_hex") {
      SpuriousInJp(data, hash, a, e, tail, next, Apply(m, hash, i));
    } else {
      SpuriousInTarget(data, hash, a, e, tail, next, Apply(m, hash, i));
    }
  }

  // ---- The whole file --------------------------------------------------------------------------------

  function ApplyAll(m: map<int, Xlate>, hash: seq<Byte> -> int, items: seq<Item>): map<int, Xlate>
    decreases |items|
  {
    if items == [] then m else ApplyAll(Apply(m, hash, items[0]), hash, items[1..])
  }

  lemma {:induction false} LineLength(e: Entry, tail: string, a: nat)
    ensures a + |LineWith(e, tail)| == MarksOf(a, e).enClose + 1 + |tail|
  {
    hide Escape;
  }

  // The first line of several, and what follows it at b
  lemma {:induction false} LineAndRest(data: string, a: nat, items: seq<Item>)
    requires items != [] && Has(data, a, ItemLines(items) + "]\n") && a + |ItemLines(items) + "]\n"| == |data|
    ensures var i, more := items[0], |items| > 1;
            var b, w := a + |ItemLine(i, more)|, MarksOf(a, i.entry).enClose + 1 + |Widths(i)|;
            && LineAt(data, a, i.entry, Widths(i) + Close(more)) && Has(data, w, Close(more)) && b == w + |Close(more)|
            && Has(data, b, ItemLines(items[1..]) + "]\n") && b + |ItemLines(items[1..]) + "]\n"| == |data|
  {
    hide Has, Escape, LineWith, Field, Widths, LineAt;
    var i, more := items[0], |items| > 1;
    var line, rest, tail := ItemLine(i, more), ItemLines(items[1..]) + "]\n", Widths(i) + Close(more);
    assert ItemLines(items) + "]\n" == line + rest;
    HasTail(data, a, line, rest);
    LineParts(data, a, i.entry, tail);
    LineLength(i.entry, tail, a);
    TailOfLine(data, a, i.entry, tail);
    HasTail(data, MarksOf(a, i.entry).enClose + 1, Widths(i), Close(more));
  }

  lemma {:induction false} TailOfLine(data: string, a: nat, e: Entry, tail: string)
    requires LineAt(data, a, e, tail)
    ensures Has(data, MarksOf(a, e).enClose + 1, tail)
  {
    hide Has, Escape;
  }

  // From the end w of a line's widths over its close to `from`, and on to next
  lemma {:induction false} GapOver(data: string, w: nat, more: bool, next: nat)
    requires Has(data, w, Close(more))
    requires var b := w + |Close(more)|;
             b <= next <= |data| && Clear(data, "\"", b, next) && Clear(data, ":", b, next)
    ensures Gap(data, w, next)
  {
    hide Has, Clear, Close;
    CloseIsPlain(more);
    ClearPlain(data, "src_hex", w, Close(more));
    ClearOfColon(data, w, Close(more));
    SeenAt(data, w, Close(more), 0);
    ClearJoin(data, "\"", w, w + |Close(more)|, next);
    ClearJoin(data, ":", w, w + |Close(more)|, next);
  }

  // The gap from the end w of a line's widths to the next line
  lemma {:induction false} GapToLine(data: string, w: nat, items: seq<Item>)
    requires Has(data, w, Close(true)) && items != [] && Has(data, w + |Close(true)|, ItemLines(items) + "]\n")
    ensures var b := w + |Close(true)|;
            Gap(data, w, b + 4) && Has(data, b + 4, SRC) && Find(data, SRC, b) == b + 4
  {
    hide Has, Clear, Find, Close, Gap, ItemLines;
    var b := w + |Close(true)|;
    FirstLine(data, b, items);
    HasBound(data, b + 4, SRC);
    FindIs(data, SRC, b, b + 4);
    GapOver(data, w, true, b + 4);
  }

  // The gap to the end of the file
  lemma {:induction false} GapToEnd(data: string, w: nat)
    requires Has(data, w, Close(false)) && Has(data, w + |Close(false)|, "]\n") && w + |Close(false)| + 2 == |data|
    ensures Gap(data, w, |data|) && Find(data, SRC, w + |Close(false)|) == |data|
  {
    hide Has, Clear, Find, Close, Gap;
    var b := w + |Close(false)|;
    ClearPlain(data, "src_hex", b, "]\n");
    ClearOfColon(data, b, "]\n");
    FindIs(data, SRC, b, |data|);
    GapOver(data, w, false, |data|);
  }

  lemma {:induction false} NoLines(items: seq<Item>)
    requires items == []
    ensures ItemLines(items) + "]\n" == "]\n"
  {
  }

  lemma {:induction false} CloseIsPlain(more: bool)
    ensures NoQuote(Close(more)) && ':' !in Close(more) && |Close(more)| >= 3 && Close(more)[0] == ' '
  {
  }

  // Past this line comes the next line, or the end of the file.
  lemma {:induction false} NextAfterLine(data: string, a: nat, items: seq<Item>)
    requires items != [] && Has(data, a, ItemLines(items) + "]\n") && a + |ItemLines(items) + "]\n"| == |data|
    ensures var b := a + |ItemLine(items[0], |items| > 1)|;
            var next := if |items| > 1 then b + 4 else |data|;
            && ItemAt(data, a, items[0], |items| > 1, next)
            && Has(data, b, ItemLines(items[1..]) + "]\n") && b + |ItemLines(items[1..]) + "]\n"| == |data|
            && Find(data, SRC, b) == next
  {
    hide Has, Escape, Clear, Find, ItemLine, ItemLines, Widths, LineAt, Gap, Close;
    LineAndRest(data, a, items);
    var w := MarksOf(a, items[0].entry).enClose + 1 + |Widths(items[0])|;
    if |items| > 1 {
      GapToLine(data, w, items[1..]);
    } else {
      NoLines(items[1..]);
      GapToEnd(data, w);
    }
  }

  lemma {:induction false} FirstLine(data: string, b: nat, items: seq<Item>)
    requires items != [] && Has(data, b, ItemLines(items) + "]\n")
    ensures Has(data, b, "  { ") && Has(data, b + 4, SRC)
    ensures Clear(data, "\"", b, b + 4) && Clear(data, SRC, b, b + 4) && Clear(data, ":", b, b + 4)
  {
    hide Has, Escape, Clear, LineWith, Field, Widths;
    var i, more := items[0], |items| > 1;
    var line := ItemLine(i, more);
    assert ItemLines(items) + "]\n" == line + (ItemLines(items[1..]) + "]\n");
    HasTail(data, b, line, ItemLines(items[1..]) + "]\n");
    LineParts(data, b, i.entry, Widths(i) + Close(more));
    ClearPlain(data, "src_hex", b, "  { ");
    ClearOfColon(data, b, "  { ");
  }

  lemma {:induction false} NothingLoads(data: string, hash: seq<Byte> -> int, a: nat, m: map<int, Xlate>)
    requires Has(data, a, "]\n") && a + 2 == |data|
    ensures LoadFrom(data, hash, a, m) == m
  {
    hide Find, Has;
    ClearPlain(data, "src_hex", a, "]\n");
    FindIs(data, SRC, a, |data|);
  }

  lemma {:induction false} LinesLoad(data: string, hash: seq<Byte> -> int, a: nat, items: seq<Item>,
                                     m: map<int, Xlate>)
    requires Has(data, a, ItemLines(items) + "]\n") && a + |ItemLines(items) + "]\n"| == |data|
    requires forall i :: i in items ==> HexDigits(i.entry.hex)
    ensures LoadFrom(data, hash, a, m) == ApplyAll(m, hash, items)
    decreases |items|
  {
    hide Has, Escape, Clear, Find, ItemLine, ItemAt, LoadFrom, HexDigits, Apply;
    if items == [] {
      assert ItemLines(items) + "]\n" == "]\n";
      NothingLoads(data, hash, a, m);
    } else {
      var b := a + |ItemLine(items[0], |items| > 1)|;
      var next := if |items| > 1 then b + 4 else |data|;
      NextAfterLine(data, a, items);
      var m' := Apply(m, hash, items[0]);
      LineLoads(data, hash, a, items[0], |items| > 1, next, m);
      KeyFoundFromItself(data, b, next);
      LoadSkips(data, hash, b, next, m');
      LinesLoad(data, hash, b, items[1..], m');
    }
  }

  lemma {:induction false} KeyFoundFromItself(data: string, b: nat, next: nat)
    requires Find(data, SRC, b) == next && b <= next
    ensures Find(data, SRC, next) == next
  {
    hide Find, Has;
    FindIs(data, SRC, next, next);
  }

  /** Loading a printed file applies its items in order: every item stores what XlateLoaded says, and
      nothing else is stored. */
  lemma {:induction false} LoadUndoesPrint(items: seq<Item>, hash: seq<Byte> -> int)
    requires forall i :: i in items ==> HexDigits(i.entry.hex)
    ensures LoadFrom(PrintItems(items), hash, 0, map[]) == ApplyAll(map[], hash, items)
  {
    hide ItemLines, Has, Clear, LoadFrom, PrintItems, HexDigits, Find;
    var data := PrintItems(items);
    PrintParts(items);
    ClearPlain(data, "src_hex", 0, "[\n");
    LinesLoad(data, hash, 2, items, map[]);
    FindFromClear(data, SRC, 0, 2);
    LoadSkips(data, hash, 0, 2, map[]);
  }

  lemma {:induction false} PrintParts(items: seq<Item>)
    ensures var data := PrintItems(items);
            && Has(data, 0, "[\n") && Has(data, 2, ItemLines(items) + "]\n")
            && 2 + |ItemLines(items) + "]\n"| == |data|
  {
    hide ItemLines;
    var data := PrintItems(items);
    assert data == "[\n" + (ItemLines(items) + "]\n");
    assert Has(data, 0, data);
    HasTail(data, 0, "[\n", ItemLines(items) + "]\n");
  }

  // ---- What the tool prints -----------------------------------------------------------------------------

  function Bares(es: seq<Entry>): seq<Item> { if es == [] then [] else [Bare(es[0])] + Bares(es[1..]) }

  lemma {:induction false} BaresAre(es: seq<Entry>)
    ensures |Bares(es)| == |es| && forall k :: 0 <= k < |es| ==> Bares(es)[k] == Bare(es[k])
    ensures Lines(es) == ItemLines(Bares(es)) && Print(es) == PrintItems(Bares(es))
    decreases |es|
  {
    hide Field;
    if es != [] {
      BaresAre(es[1..]);
      assert Bares(es)[1..] == Bares(es[1..]);
      assert Widths(Bare(es[0])) == [];
      assert [] + Close(|es| > 1) == Close(|es| > 1);
    }
  }

  /** A printed entry without widths is loaded without widths, whatever its texts look like. */
  lemma {:induction false} NoWidth(e: Entry)
    ensures XlateLoaded(Bare(e)) == Unsized(Loaded(e))
  {
    hide Fakes;
  }

  /** So no translation that comes from a file as the tool prints it has a width. */
  lemma {:induction false} PrintedWidths(es: seq<Entry>, hash: seq<Byte> -> int)
    requires forall e :: e in es ==> HexDigits(e.hex)
    ensures forall h :: h in LoadFrom(Print(es), hash, 0, map[]) ==>
              var x := LoadFrom(Print(es), hash, 0, map[])[h];
              x.origW == -1 && x.fitW == -1
  {
    hide LoadFrom, Print, PrintItems, HexDigits;
    BaresAre(es);
    forall i | i in Bares(es)
      ensures HexDigits(i.entry.hex) && i == Bare(i.entry)
    {
      var k :| 0 <= k < |es| && Bares(es)[k] == i;
      assert es[k] in es;
    }
    LoadUndoesPrint(Bares(es), hash);
    AppliedWidths(Bares(es), hash, map[]);
  }

  lemma {:induction false} AppliedWidths(items: seq<Item>, hash: seq<Byte> -> int, m: map<int, Xlate>)
    requires forall i :: i in items ==> i == Bare(i.entry)
    requires forall h :: h in m ==> m[h].origW == -1 && m[h].fitW == -1
    ensures forall h :: h in ApplyAll(m, hash, items) ==>
              ApplyAll(m, hash, items)[h].origW == -1 && ApplyAll(m, hash, items)[h].fitW == -1
    decreases |items|
  {
    hide HexBytes, Loaded, WidthLoaded;
    if items != [] {
      assert items[0] in items;
      NoWidth(items[0].entry);
      AppliedWidths(items[1..], hash, Apply(m, hash, items[0]));
    }
  }

  // ---- When that is what was meant ------------------------------------------------------------------------

  /** A captured string, its Japanese text, its translation and its widths */
  datatype Translation = Translation(bytes: seq<Byte>, jp: string, en: string, origW: Option<int>, fitW: Option<int>)

  /** The item says the translation: its key is what the capture prints for the bytes, in either case. */
  predicate Writes(i: Item, t: Translation) {
    && Lower(i.entry.hex) == Hex(t.bytes) && i.entry.jp == t.jp && i.entry.en == t.en
    && i.origW == t.origW && i.fitW == t.fitW
  }

  predicate Storable(t: Translation) { t.bytes != [] && t.en != [] }

  /** Checkable before printing: no text of the translation fakes a key that the loader looks for, or it makes
      no difference. */
  predicate Clean(t: Translation) {
    t.bytes == [] ||
    (&& (Fakes(t.jp, "src_hex") ==> t.en == []) && (Fakes(t.jp, "target") ==> t.en == "target")
     && (t.en != [] ==> KeepsWidth(t, "orig_w", t.origW) && KeepsWidth(t, "fit_w", t.fitW)))
  }

  predicate KeepsWidth(t: Translation, key: string, own: Option<int>) {
    if Fakes(t.jp, key) || Fakes(t.en, "src_hex") then OrMissing(own) == -1
    else Fakes(t.en, key) ==> OrMissing(own) == if t.origW.Some? then t.origW.value else OrMissing(t.fitW)
  }

  /** The effect the file is written for: the string is looked up by the hash of its bytes, and a width that
      is not there is -1. */
  function Intended(m: map<int, Xlate>, hash: seq<Byte> -> int, t: Translation): map<int, Xlate> {
    if Storable(t) then m[hash(t.bytes) := Xlate(t.en, OrMissing(t.origW), OrMissing(t.fitW))] else m
  }

  function IntendedAll(m: map<int, Xlate>, hash: seq<Byte> -> int, ts: seq<Translation>): map<int, Xlate>
    decreases |ts|
  {
    if ts == [] then m else IntendedAll(Intended(m, hash, ts[0]), hash, ts[1..])
  }

  lemma {:induction false} StoreIsExact(hash: seq<Byte> -> int, bytes: seq<Byte>, x: Xlate, y: Xlate)
    ensures (forall m :: Store(m, hash, bytes, x) == Store(m, hash, bytes, y)) <==>
            bytes == [] || (x.target == [] && y.target == []) || x == y
  {
    if (forall m :: Store(m, hash, bytes, x) == Store(m, hash, bytes, y)) && bytes != [] {
      var a, b := Store(map[], hash, bytes, x), Store(map[], hash, bytes, y);
      assert a == b;
      var h := hash(bytes);
      assert h in a <==> x.target != [];
      assert h in b <==> y.target != [];
      assert h in a ==> a[h] == x;
      assert h in b ==> b[h] == y;
    }
  }

  /** An item has the intended effect on every map exactly when it is clean. */
  lemma {:induction false} CleanIsExact(hash: seq<Byte> -> int, i: Item, t: Translation)
    requires Writes(i, t)
    ensures (forall m :: Apply(m, hash, i) == Intended(m, hash, t)) <==> Clean(t)
  {
    hide HexBytes, Fakes, Store;
    FakesOneKey(t.jp);
    HexRoundTrip(i.entry.hex, t.bytes);
    var x, y := XlateLoaded(i), Xlate(t.en, OrMissing(t.origW), OrMissing(t.fitW));
    forall m
      ensures Intended(m, hash, t) == Store(m, hash, t.bytes, y)
    {
      IntendedStores(m, hash, t);
    }
    StoreIsExact(hash, t.bytes, x, y);
  }

  lemma {:induction false} IntendedStores(m: map<int, Xlate>, hash: seq<Byte> -> int, t: Translation)
    ensures Intended(m, hash, t) == Store(m, hash, t.bytes, Xlate(t.en, OrMissing(t.origW), OrMissing(t.fitW)))
  {
  }

  /** The round trip: loading the printed items of clean translations gives the map from the hash of the
      captured bytes to the translation and its own widths. */
  lemma {:induction false} RoundTrip(items: seq<Item>, ts: seq<Translation>, hash: seq<Byte> -> int)
    requires |items| == |ts| && forall k :: 0 <= k < |ts| ==> Writes(items[k], ts[k]) && Clean(ts[k])
    ensures LoadFrom(PrintItems(items), hash, 0, map[]) == IntendedAll(map[], hash, ts)
  {
    hide HexDigits, Clean, PrintItems, LoadFrom;
    forall i | i in items
      ensures HexDigits(i.entry.hex)
    {
      var k :| 0 <= k < |items| && items[k] == i;
      HexRoundTrip(i.entry.hex, ts[k].bytes);
    }
    LoadUndoesPrint(items, hash);
    AppliesAsIntended(items, ts, hash, map[]);
  }

  lemma {:induction false} AppliesAsIntended(items: seq<Item>, ts: seq<Translation>, hash: seq<Byte> -> int,
                                             m: map<int, Xlate>)
    requires |items| == |ts| && forall k :: 0 <= k < |ts| ==> Writes(items[k], ts[k]) && Clean(ts[k])
    ensures ApplyAll(m, hash, items) == IntendedAll(m, hash, ts)
    decreases |items|
  {
    if items != [] {
      hide Clean, Writes, Apply, Intended;
      CleanIsExact(hash, items[0], ts[0]);
      AppliesAsIntended(items[1..], ts[1..], hash, Apply(m, hash, items[0]));
    }
  }

  /** Of several translations with one hash the last one wins. */
  lemma {:induction false} LastEntryWins(ts: seq<Translation>, hash: seq<Byte> -> int, m: map<int, Xlate>, k: nat)
    requires k < |ts| && Storable(ts[k])
    requires forall j :: k < j < |ts| && Storable(ts[j]) ==> hash(ts[j].bytes) != hash(ts[k].bytes)
    ensures var h, t := hash(ts[k].bytes), ts[k];
            && h in IntendedAll(m, hash, ts)
            && IntendedAll(m, hash, ts)[h] == Xlate(t.en, OrMissing(t.origW), OrMissing(t.fitW))
    decreases |ts|
  {
    if k > 0 {
      LastEntryWins(ts[1..], hash, Intended(m, hash, ts[0]), k - 1);
    } else {
      Untouched(ts[1..], hash, Intended(m, hash, ts[0]), hash(ts[0].bytes));
    }
  }

  lemma {:induction false} Untouched(ts: seq<Translation>, hash: seq<Byte> -> int, m: map<int, Xlate>, h: int)
    requires h in m && forall j :: 0 <= j < |ts| && Storable(ts[j]) ==> hash(ts[j].bytes) != h
    ensures h in IntendedAll(m, hash, ts) && IntendedAll(m, hash, ts)[h] == m[h]
    decreases |ts|
  {
    if ts != [] { Untouched(ts[1..], hash, Intended(m, hash, ts[0]), h); }
  }

  // ---- Two that are not clean -----------------------------------------------------------------------------

  // The Japanese text is the word that the loader searches for.
  function KeyWord(): Translation { Translation([0xA4], "target", "Hello", None, None) }

  /** The word is loaded instead of the translation, whatever the hash is. */
  lemma {:induction false} KeyWordIsLoaded(i: Item, hash: seq<Byte> -> int)
    requires Writes(i, KeyWord())
    ensures !Clean(KeyWord())
    ensures LoadFrom(PrintItems([i]), hash, 0, map[]) == map[hash([0xA4]) := Unsized("target")]
  {
    KeyWordFakes();
    HexRoundTrip(i.entry.hex, [0xA4]);
    LoadUndoesPrint([i], hash);
    hide LoadFrom, Fakes, HexBytes, HexDigits, PrintItems;
    ApplyOne(map[], hash, i);
  }

  lemma {:induction false} KeyWordFakes()
    ensures Fakes("target", "target") && !Fakes("target", "src_hex")
  {
    FakesOneKey("target");
    assert "\"" + "target" == "\"target";
  }

  // The translation is the key of one width, and the item has the other width.
  function WidthWord(): Translation { Translation([0xA4], "", "fit_w", Some(3), None) }

  /** The loader takes the width for both. */
  lemma {:induction false} WidthIsMistaken(i: Item, hash: seq<Byte> -> int)
    requires Writes(i, WidthWord())
    ensures !Clean(WidthWord())
    ensures LoadFrom(PrintItems([i]), hash, 0, map[]) == map[hash([0xA4]) := Xlate("fit_w", 3, 3)]
  {
    WidthWordFakes();
    HexRoundTrip(i.entry.hex, [0xA4]);
    LoadUndoesPrint([i], hash);
    hide LoadFrom, Fakes, HexBytes, HexDigits, PrintItems;
    ApplyOne(map[], hash, i);
  }

  lemma {:induction false} WidthWordFakes()
    ensures Fakes("fit_w", "fit_w") && !Fakes("fit_w", "src_hex") && !Fakes("fit_w", "orig_w")
    ensures !Fakes("", "src_hex") && !Fakes("", "target") && !Fakes("", "orig_w") && !Fakes("", "fit_w")
  {
    assert "\"" + "fit_w" == "\"fit_w";
  }

  lemma {:induction false} ApplyOne(m: map<int, Xlate>, hash: seq<Byte> -> int, i: Item)
    ensures ApplyAll(m, hash, [i]) == Apply(m, hash, i)
  {
    hide Apply;
    assert [i][1..] == [];
  }
}
