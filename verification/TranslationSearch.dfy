/** Searching translations.json: reading back an escaped text, and where a quoted key can match. */
module TranslationSearch {

  import opened TranslationFile

  // ---- Reading back one string --------------------------------------------------------

  lemma {:induction false} EscapeOfCons(c: char, s: string)
    ensures Escape([c] + s) == EscapeChar(c) + Escape(s)
    decreases |s|
  {
    hide EscapeChar;
    if s == [] {
      assert ([c] + s)[..0] == [] && Escape([]) == [];
      assert EscapeChar(c) + [] == EscapeChar(c) == [] + EscapeChar(c);
    } else {
      var init, d := s[..|s| - 1], s[|s| - 1];
      assert ([c] + s)[..|s|] == [c] + init;
      EscapeOfCons(c, init);
      assert (EscapeChar(c) + Escape(init)) + EscapeChar(d) == EscapeChar(c) + (Escape(init) + EscapeChar(d));
    }
  }

  lemma {:induction false} ReadEscapedChar(data: string, p: nat, c: char)
    requires Has(data, p, EscapeChar(c))
    ensures Chars(data, p) == [c] + Chars(data, p + |EscapeChar(c)|)
    ensures After(data, p) == After(data, p + |EscapeChar(c)|)
  {
    var e := EscapeChar(c);
    assert data[p + 0] == e[0];
    assert |e| == 2 ==> data[p + 1] == e[1];
  }

  /** Unescaping undoes escaping, and stops just past the closing quote. */
  lemma {:induction false} CharsUndoEscape(data: string, p: nat, v: string)
    requires Has(data, p, Escape(v) + "\"")
    ensures Chars(data, p) == v && After(data, p) == p + |Escape(v)| + 1
    decreases |v|
  {
    hide EscapeChar;
    if v == [] {
      assert data[p + 0] == (Escape(v) + "\"")[0];
    } else {
      var c, rest := v[0], v[1..];
      EscapeOfCons(c, rest);
      assert v == [c] + rest;
      assert Escape(v) + "\"" == EscapeChar(c) + (Escape(rest) + "\"");
      HasTail(data, p, EscapeChar(c), Escape(rest) + "\"");
      ReadEscapedChar(data, p, c);
      CharsUndoEscape(data, p + |EscapeChar(c)|, rest);
    }
  }

  lemma {:induction false} HasTail(data: string, p: int, a: string, b: string)
    requires Has(data, p, a + b)
    ensures Has(data, p, a) && Has(data, p + |a|, b)
  {
    forall k | 0 <= k < |a|
      ensures data[p + k] == a[k]
    {
      assert (a + b)[k] == a[k];
    }
    forall k | 0 <= k < |b|
      ensures data[p + |a| + k] == b[k]
    {
      assert (a + b)[|a| + k] == b[k];
    }
  }

  /** The core of the round trip: json_read_string undoes json_escape. */
  lemma {:induction false} ReadUndoesEscape(data: string, p: nat, v: string)
    requires Has(data, p, Quoted(Escape(v)))
    ensures ReadString(data, p) == (v, p + |Escape(v)| + 2)
  {
    assert Quoted(Escape(v)) == "\"" + (Escape(v) + "\"");
    HasTail(data, p, "\"", Escape(v) + "\"");
    assert data[p + 0] == "\""[0];
    CharsUndoEscape(data, p + 1, v);
  }

  // ---- Where a key can match ------------------------------------------------------------

  /** Keys are plain: no quote, no backslash and no character that is escaped. */
  predicate Plain(s: string) { forall c :: c in s ==> PlainChar(c) }

  predicate PlainChar(c: char) { c != '"' && c != '\\' && c != '\n' && c != '\t' }

  predicate EndsWith(s: string, t: string) { |t| <= |s| && s[|s| - |t|..] == t }

  lemma {:induction false} EscapeOfPlain(s: string)
    requires Plain(s)
    ensures Escape(s) == s
  {
    hide EscapeChar;
    if s != [] {
      var init, c := s[..|s| - 1], s[|s| - 1];
      PlainInit(s);
      hide Plain;
      EscapeOfPlain(init);
      assert s == init + [c];
    }
  }

  /** In an escaped text every quote follows a backslash. */
  lemma {:induction false} QuotesAreEscaped(v: string, k: nat)
    requires k < |Escape(v)| && Escape(v)[k] == '"'
    ensures k >= 1 && Escape(v)[k - 1] == '\\'
  {
    var init := Escape(v[..|v| - 1]);
    if k < |init| { QuotesAreEscaped(v[..|v| - 1], k); }
  }

  lemma {:induction false} EndsWithLast(s: string, t: string, d: char)
    ensures EndsWith(s, t + [d]) <==> s != [] && s[|s| - 1] == d && EndsWith(s[..|s| - 1], t)
  {
    if |t| + 1 <= |s| {
      var n := |s| - |t| - 1;
      var front, last := s[..|s| - 1][n..], s[|s| - 1];
      assert s[n..] == front + [last];
      if front + [last] == t + [d] {
        assert (front + [last])[|t|] == (t + [d])[|t|];
        assert (front + [last])[..|t|] == (t + [d])[..|t|];
      }
      assert (front + [last])[..|t|] == front && (t + [d])[..|t|] == t;
    }
  }

  lemma {:induction false} EndsWithSaysLast(s: string, t: string)
    requires t != []
    ensures EndsWith(s, t) ==> s[|s| - 1] == t[|t| - 1]
  {
    if EndsWith(s, t) { assert s[|s| - |t|..][|t| - 1] == s[|s| - 1]; }
  }

  lemma {:induction false} EscapeShape(c: char)
    ensures |EscapeChar(c)| == 1 ==> EscapeChar(c) == [c]
    ensures |EscapeChar(c)| != 1 ==> |EscapeChar(c)| == 2 && EscapeChar(c)[0] == '\\'
  {
  }

  lemma {:induction false} NoBackslash(w: string)
    requires Plain(w)
    ensures ("\"" + w)[|w|] != '\\'
  {
    if w != [] {
      assert w[|w| - 1] in w;
      assert ("\"" + w)[|w|] == w[|w| - 1];
    }
  }

  lemma {:induction false} EscapeSequenceSplits(init: string, c: char, w: string)
    requires Plain(w) && |EscapeChar(c)| != 1
    ensures var e := Escape(init) + EscapeChar(c); !EndsWith(e[..|e| - 1], "\"" + w)
  {
    hide Escape, EscapeChar;
    EscapeShape(c);
    NoBackslash(w);
    var e := Escape(init) + EscapeChar(c);
    var cut, tail := e[..|e| - 1], "\"" + w;
    assert cut[|cut| - 1] == '\\';
    EndsWithSaysLast(cut, tail);
  }

  /** No escaped text ends in a quote and a plain word without its text doing so: the second character of
      an escape sequence follows a backslash, which is neither. */
  lemma {:induction false} EscapeEndsAlike(v: string, word: string)
    requires Plain(word)
    ensures EndsWith(Escape(v), "\"" + word) <==> EndsWith(v, "\"" + word)
    decreases |word|
  {
    hide Escape, EscapeChar, EndsWith;
    if word == [] {
      EndsWithQuote(v);
      assert "\"" + word == "\"";
    } else {
      var w, d := word[..|word| - 1], word[|word| - 1];
      PlainInit(word);
      assert "\"" + word == ("\"" + w) + [d];
      EndsWithLast(v, "\"" + w, d);
      EndsWithLast(Escape(v), "\"" + w, d);
      if v == [] {
        EscapeOfEmpty();
      } else {
        EscapeEndsAlike(v[..|v| - 1], w);
        EscapeEndsAlikeStep(v, w, d);
      }
    }
  }

  lemma {:induction false} EscapeOfEmpty()
    ensures Escape([]) == []
  {
  }

  lemma {:induction false} PlainInit(word: string)
    requires Plain(word) && word != []
    ensures Plain(word[..|word| - 1]) && EscapeChar(word[|word| - 1]) == [word[|word| - 1]]
  {
    assert word[|word| - 1] in word && forall c :: c in word[..|word| - 1] ==> c in word;
  }

  lemma {:induction false} EscapeEndsAlikeStep(v: string, w: string, d: char)
    requires v != [] && Plain(w) && EscapeChar(d) == [d]
    requires EndsWith(Escape(v[..|v| - 1]), "\"" + w) <==> EndsWith(v[..|v| - 1], "\"" + w)
    ensures (Escape(v) != [] && Escape(v)[|Escape(v)| - 1] == d && EndsWith(Escape(v)[..|Escape(v)| - 1], "\"" + w))
       <==> (v[|v| - 1] == d && EndsWith(v[..|v| - 1], "\"" + w))
  {
    var init, c := v[..|v| - 1], v[|v| - 1];
    EscapeShape(c);
    if |EscapeChar(c)| == 1 {
      assert Escape(v)[..|Escape(v)| - 1] == Escape(init);
    } else {
      EscapeSequenceSplits(init, c, w);
    }
  }

  lemma {:induction false} EndsWithQuote(v: string)
    ensures EndsWith(Escape(v), "\"") <==> EndsWith(v, "\"")
  {
    if v != [] {
      var c, e := v[|v| - 1], Escape(v);
      assert e[|e| - 1] == EscapeChar(c)[|EscapeChar(c)| - 1];
      assert EndsWith(v, "\"") <==> v[|v| - 1] == '"';
      assert EndsWith(e, "\"") <==> e[|e| - 1] == '"';
    }
  }

  // ---- Matches of a quoted key ------------------------------------------------------------

  predicate IsKey(k: string) { k != [] && Plain(k) }

  ghost predicate Clear(data: string, pat: string, from: int, to: int) {
    forall m :: from <= m < to ==> !Has(data, m, pat)
  }

  lemma {:induction false} FindIs(data: string, pat: string, from: nat, p: nat)
    requires pat != [] && from <= p <= |data| && Clear(data, pat, from, p)
    requires p == |data| || Has(data, p, pat)
    ensures Find(data, pat, from) == p
  {
    hide Find;
    var f := Find(data, pat, from);
    assert f < |data| ==> p <= f;
  }

  predicate NoQuote(s: string) { '"' !in s }

  lemma {:induction false} MatchStartsWithQuote(data: string, m: int, k: string)
    ensures Has(data, m, Quoted(k)) || Has(data, m, "\"") ==> 0 <= m < |data| && data[m] == '"'
  {
    assert Quoted(k)[0] == "\""[0] == '"';
    if Has(data, m, Quoted(k)) || Has(data, m, "\"") { assert data[m + 0] == '"'; }
  }

  lemma {:induction false} ClearPlain(data: string, k: string, p: int, s: string)
    requires Has(data, p, s) && NoQuote(s)
    ensures Clear(data, Quoted(k), p, p + |s|)
    ensures Clear(data, "\"", p, p + |s|)
  {
    forall m | p <= m < p + |s|
      ensures !Has(data, m, Quoted(k)) && !Has(data, m, "\"")
    {
      assert data[p + (m - p)] == s[m - p] && s[m - p] in s;
      MatchStartsWithQuote(data, m, k);
    }
  }

  lemma {:induction false} SeenAt(data: string, p: int, s: string, i: nat)
    requires i < |s|
    ensures Has(data, p, s) ==> 0 <= p && p + |s| <= |data| && data[p + i] == s[i]
  {
  }

  lemma {:induction false} ClearOfColon(data: string, p: int, s: string)
    requires Has(data, p, s) && ':' !in s
    ensures Clear(data, ":", p, p + |s|)
  {
    forall m | p <= m < p + |s|
      ensures !Has(data, m, ":")
    {
      assert data[p + (m - p)] == s[m - p] && s[m - p] in s;
      SeenAt(data, m, ":", 0);
    }
  }

  lemma {:induction false} HasQuoted(data: string, x: int, s: string)
    requires Has(data, x, Quoted(s))
    ensures data[x] == '"' && Has(data, x + 1, s) && data[x + 1 + |s|] == '"'
    ensures Has(data, x, "\"") && Has(data, x + 1 + |s|, "\"")
  {
    assert Quoted(s) == "\"" + (s + "\"");
    HasTail(data, x, "\"", s + "\"");
    HasTail(data, x + 1, s, "\"");
    assert data[x + 0] == "\""[0] && data[x + 1 + |s| + 0] == "\""[0];
  }

  lemma {:induction false} QuotedJoin(data: string, x: int, s: string)
    requires Has(data, x, "\"") && Has(data, x + 1, s) && Has(data, x + 1 + |s|, "\"")
    ensures Has(data, x, Quoted(s))
  {
    assert data[x + 0] == "\""[0] && data[x + 1 + |s| + 0] == "\""[0];
    forall i | 0 <= i < |Quoted(s)|
      ensures data[x + i] == Quoted(s)[i]
    {
      if 1 <= i <= |s| { assert data[x + 1 + (i - 1)] == s[i - 1]; }
    }
  }

  lemma {:induction false} WordInside(data: string, x: int, s: string)
    requires Has(data, x, Quoted(s)) && NoQuote(s)
    ensures data[x] == '"' && data[x + 1 + |s|] == '"'
    ensures forall i :: x < i <= x + |s| ==> data[i] != '"'
  {
    HasQuoted(data, x, s);
    forall i | x < i <= x + |s|
      ensures data[i] != '"'
    {
      assert data[x + 1 + (i - x - 1)] == s[i - x - 1] && s[i - x - 1] in s;
    }
  }

  lemma {:induction false} SameWord(data: string, x: int, s: string, k: string)
    requires Has(data, x, Quoted(s)) && NoQuote(s) && Has(data, x, Quoted(k)) && NoQuote(k)
    ensures s == k
  {
    WordInside(data, x, s);
    WordInside(data, x, k);
    HasQuoted(data, x, s);
    HasQuoted(data, x, k);
    assert forall i :: 0 <= i < |s| ==> s[i] == data[x + 1 + i] == k[i];
  }

  lemma {:induction false} KeyHasNoQuote(k: string)
    requires IsKey(k)
    ensures NoQuote(k)
  {
    assert '"' in k ==> EscapeChar('"') == ['"'];
  }

  /** A quoted text without quotes inside holds a quoted key only if it is that key. */
  lemma {:induction false} ClearQuoted(data: string, k: string, x: int, s: string)
    requires IsKey(k) && Has(data, x, Quoted(s)) && NoQuote(s) && s != k
    ensures Clear(data, Quoted(k), x, x + 1 + |s|)
  {
    KeyHasNoQuote(k);
    HasQuoted(data, x, s);
    assert !Has(data, x, Quoted(k)) by {
      if Has(data, x, Quoted(k)) { SameWord(data, x, s, k); }
    }
    ClearPlain(data, k, x + 1, s);
  }

  // The value, with its opening quote, ends in a quoted key short of the closing quote.
  predicate Fakes(v: string, k: string) { EndsWith("\"" + v, "\"" + k) }

  /** In an escaped value the only place a quoted key can match is at the very end, sharing the closing
      quote, and it does so exactly when the value fakes the key. */
  lemma {:induction false} ClearValue(data: string, k: string, x: int, v: string)
    requires IsKey(k) && Has(data, x, Quoted(Escape(v)))
    ensures var close := x + 1 + |Escape(v)|;
            if Fakes(v, k)
            then x <= close - |k| - 1 && Clear(data, Quoted(k), x, close - |k| - 1) &&
              Has(data, close - |k| - 1, Quoted(k))
            else Clear(data, Quoted(k), x, close)
  {
    hide Escape;
    var e := Escape(v);
    var close := x + 1 + |e|;
    HasQuoted(data, x, e);
    forall m | x <= m < close && Has(data, m, Quoted(k))
      ensures m == close - |k| - 1
    {
      MatchEndsAtClose(data, k, x, v, m);
    }
    FakesSeen(data, k, x, v);
  }

  lemma {:induction false} KeyInside(data: string, m: int, k: string)
    requires IsKey(k) && Has(data, m, Quoted(k))
    ensures data[m] == '"' && data[m + 1 + |k|] == '"'
    ensures forall i :: m < i <= m + |k| ==> data[i] != '"' && data[i] != '\\'
  {
    HasQuoted(data, m, k);
    forall i | m < i <= m + |k|
      ensures data[i] != '"' && data[i] != '\\'
    {
      assert data[m + 1 + (i - m - 1)] == k[i - m - 1] && k[i - m - 1] in k;
    }
  }

  lemma {:induction false} InnerQuote(data: string, x: int, v: string, i: int)
    requires Has(data, x, Quoted(Escape(v))) && x < i < x + 1 + |Escape(v)| && data[i] == '"'
    ensures x < i - 1 && data[i - 1] == '\\'
  {
    hide Escape;
    var e := Escape(v);
    HasQuoted(data, x, e);
    assert data[x + 1 + (i - x - 1)] == e[i - x - 1];
    QuotesAreEscaped(v, i - x - 1);
    assert data[x + 1 + (i - x - 2)] == e[i - x - 2];
  }

  lemma {:induction false} MatchEndsAtClose(data: string, k: string, x: int, v: string, m: int)
    requires IsKey(k) && Has(data, x, Quoted(Escape(v)))
    requires x <= m < x + 1 + |Escape(v)| && Has(data, m, Quoted(k))
    ensures m == x + |Escape(v)| - |k|
  {
    hide Escape;
    HasQuoted(data, x, Escape(v));
    KeyInside(data, m, k);
    if m + 1 + |k| < x + 1 + |Escape(v)| {
      InnerQuote(data, x, v, m + 1 + |k|);
    }
  }

  lemma {:induction false} HasJoin(data: string, p: int, a: string, b: string)
    requires Has(data, p, a) && Has(data, p + |a|, b)
    ensures Has(data, p, a + b)
  {
    forall i | 0 <= i < |a + b|
      ensures data[p + i] == (a + b)[i]
    {
      if i >= |a| { assert data[p + |a| + (i - |a|)] == b[i - |a|]; }
    }
  }

  lemma {:induction false} HasEnds(data: string, x: int, q: string, t: string)
    requires Has(data, x, q) && |t| <= |q|
    ensures Has(data, x + |q| - |t|, t) <==> EndsWith(q, t)
  {
    var m, tail := x + |q| - |t|, q[|q| - |t|..];
    assert forall i :: 0 <= i < |t| ==> tail[i] == q[|q| - |t| + i] == data[x + (|q| - |t| + i)];
    if Has(data, m, t) {
      assert forall i :: 0 <= i < |t| ==> data[m + i] == t[i];
      assert tail == t;
    }
  }

  lemma {:induction false} EndsShorter(s: string, t: string)
    ensures EndsWith(s, t) ==> |t| <= |s|
  {
  }

  lemma {:induction false} HasCloses(data: string, m: int, k: string)
    requires Has(data, m + 1 + |k|, "\"")
    ensures Has(data, m, Quoted(k)) <==> Has(data, m, "\"" + k)
  {
    if Has(data, m, Quoted(k)) { HasTail(data, m, "\"" + k, "\""); }
    if Has(data, m, "\"" + k) { HasJoin(data, m, "\"" + k, "\""); }
  }

  lemma {:induction false} EndsAtClose(data: string, k: string, x: int, e: string)
    requires Has(data, x, Quoted(e)) && |k| <= |e|
    ensures EndsWith("\"" + e, "\"" + k) <==> Has(data, x + |e| - |k|, Quoted(k))
  {
    hide Has, EndsWith;
    HasQuoted(data, x, e);
    HasJoin(data, x, "\"", e);
    HasEnds(data, x, "\"" + e, "\"" + k);
    HasCloses(data, x + |e| - |k|, k);
  }

  lemma {:induction false} FakesSeen(data: string, k: string, x: int, v: string)
    requires IsKey(k) && Has(data, x, Quoted(Escape(v)))
    ensures Fakes(v, k) <==> |k| <= |Escape(v)| && Has(data, x + |Escape(v)| - |k|, Quoted(k))
  {
    hide Escape, Has, IsKey, EndsWith, Fakes;
    FakesEscaped(v, k);
    EndsShorter("\"" + Escape(v), "\"" + k);
    if |k| <= |Escape(v)| { EndsAtClose(data, k, x, Escape(v)); }
  }

  lemma {:induction false} FakesEscaped(v: string, k: string)
    requires IsKey(k)
    ensures Fakes(v, k) <==> EndsWith("\"" + Escape(v), "\"" + k)
  {
    EscapeEndsAlike(v, k);
    WholeOrTail(v, k);
    WholeOrTail(Escape(v), k);
    if v == k { EscapeOfPlain(v); }
    if Escape(v) == k { PlainEscape(v); }
  }

  lemma {:induction false} WholeOrTail(s: string, k: string)
    ensures EndsWith("\"" + s, "\"" + k) <==> s == k || EndsWith(s, "\"" + k)
  {
    var q := "\"" + s;
    if |k| < |s| {
      assert q[|q| - |k| - 1..] == s[|s| - |k| - 1..];
    } else if |k| == |s| {
      assert q[0..] == q && q[1..] == s && ("\"" + k)[1..] == k;
    }
  }

  lemma {:induction false} PlainFront(a: string, b: string)
    requires Plain(a + b)
    ensures Plain(a)
  {
    assert forall d :: d in a ==> d in a + b;
  }

  lemma {:induction false} PlainEscape(v: string)
    requires Plain(Escape(v))
    ensures Escape(v) == v
  {
    if v != [] {
      hide EscapeChar, PlainChar;
      var init, c := v[..|v| - 1], v[|v| - 1];
      PlainFront(Escape(init), EscapeChar(c));
      PlainEscape(init);
      EscapeShape(c);
      assert EscapeChar(c)[0] in EscapeChar(c) && EscapeChar(c)[0] in Escape(v);
      assert v == init + [c];
    }
  }

  lemma {:induction false} ClearJoin(data: string, pat: string, i: int, j: int, k: int)
    requires Clear(data, pat, i, j) && Clear(data, pat, j, k)
    ensures Clear(data, pat, i, k)
  {
  }

  lemma {:induction false} KeysArePlain()
    ensures IsKey("src_hex") && IsKey("target") && IsKey("orig_w") && IsKey("fit_w")
  {
  }

  lemma {:induction false} KeysDiffer(k: string)
    requires k in {"src_hex", "target", "orig_w", "fit_w"}
    ensures k != ": " && k != ", " && k != "src_jp"
    ensures k in {"orig_w", "fit_w"} ==> k != "target" && k[0] != ' ' && ':' !in k
  {
    assert |k| >= 5 && (|k| == 6 ==> k[0] == 't' || k[0] == 'o');
    assert "src_jp"[0] == 's' && "target"[0] == 't';
  }

  lemma {:induction false} NoQuoteNoMatch(data: string, k: string, i: int, j: int)
    requires Clear(data, "\"", i, j)
    ensures Clear(data, Quoted(k), i, j)
  {
    forall m | i <= m < j
      ensures !Has(data, m, Quoted(k))
    {
      if Has(data, m, Quoted(k)) { HasQuoted(data, m, k); }
    }
  }

  lemma {:induction false} NoneBefore(data: string, d: nat, rest: string, k: string)
    requires Has(data, d + 1, rest) && rest != [] && k != [] && k[0] != rest[0]
    ensures !Has(data, d, Quoted(k))
  {
    SeenAt(data, d + 1, rest, 0);
    SeenAt(data, d, Quoted(k), 1);
  }

  lemma {:induction false} HasBound(data: string, p: int, s: string)
    ensures Has(data, p, s) ==> 0 <= p && p + |s| <= |data|
  {
  }

  lemma {:induction false} ClearTo(data: string, pat: string, i: int, j: int, k: int)
    requires i <= j && Clear(data, pat, i, k)
    ensures Clear(data, pat, j, k)
  {
  }

  lemma {:induction false} QuoteAfter(data: string, x: nat, s: string)
    requires Has(data, x, Quoted(s)) && NoQuote(s)
    ensures Find(data, "\"", x + 1) == x + 1 + |s|
  {
    hide Find;
    HasQuoted(data, x, s);
    ClearPlain(data, s, x + 1, s);
    FindIs(data, "\"", x + 1, x + 1 + |s|);
  }

  lemma {:induction false} FoundHere(data: string, pat: string, p: nat)
    requires pat != [] && Has(data, p, pat)
    ensures p < |data| && Find(data, pat, p) == p
  {
    FindIs(data, pat, p, p);
  }

  lemma {:induction false} NoColonNoFind(data: string, from: nat, next: nat)
    requires from <= next <= |data| && Clear(data, ":", from, next)
    ensures Find(data, ":", from) >= next
  {
    hide Find, Has;
  }

  lemma {:induction false} ColonAfter(data: string, from: nat)
    requires from <= |data|
    ensures Find(data, ":", from) >= from
  {
  }

  lemma {:induction false} FindFromClear(data: string, pat: string, i: nat, j: nat)
    requires pat != [] && i <= j <= |data| && Clear(data, pat, i, j)
    ensures Find(data, pat, i) == Find(data, pat, j)
    decreases j - i
  {
    if i < j {
      FindFromClear(data, pat, i + 1, j);
    }
  }
}
