/** tools/pms_build_translations.py: how a rebuild merges the entries it makes with those already in
    translations.json, and when that changes what is loaded. */
module TranslationMerge {

  import opened Basics
  import opened TranslationFile
  import opened TranslationSearch
  import opened TranslationWidths
  import opened TranslationRoundTrip
  import opened TranslationJson

  function Lowers(es: seq<Entry>, lower: string -> string): set<string> { set e | e in es :: lower(e.hex) }

  /** The existing entries carried forward: nonempty, and not produced again. */
  function Preserved(existing: seq<Entry>, have: set<string>, lower: string -> string): seq<Entry>
    decreases |existing|
  {
    if existing == [] then []
    else
      var e := existing[0];
      if e.hex != [] && lower(e.hex) !in have
      then [e] + Preserved(existing[1..], have + {lower(e.hex)}, lower)
      else Preserved(existing[1..], have, lower)
  }

  // The entries of the file, none if there is no file or it is refused
  function Existing(text: Option<string>): seq<Entry> {
    if text.Some? then (var r := ReadFile(text.value); if r.Some? then r.value else []) else []
  }

  function Rebuild(built: seq<Entry>, text: Option<string>, lower: string -> string): seq<Entry> {
    built + Preserved(Existing(text), Lowers(built, lower), lower)
  }

  /** cmd_build's merge: new entries first, then what was only in the file. */
  method Merge(built: seq<Entry>, text: Option<string>, lower: string -> string) returns (entries: seq<Entry>)
    ensures entries == Rebuild(built, text, lower)
  {
    hide ReadFile;
    entries := built;
    var have := Lowers(built, lower);
    if text.None? {
      return;
    }
    var file := ReadFile(text.value);
    if file.None? {
      return;   // the warning of the except branch
    }
    var existing := file.value;
    ghost var all := Preserved(existing, have, lower);
    for i := 0 to |existing|
      invariant built + all == entries + Preserved(existing[i..], have, lower)
    {
      var e := existing[i];
      ghost var rest := Preserved(existing[i..], have, lower);
      assert existing[i..][1..] == existing[i + 1..];
      if e.hex != [] && lower(e.hex) !in have {
        assert entries + rest == (entries + [e]) + Preserved(existing[i + 1..], have + {lower(e.hex)}, lower);
        entries := entries + [e];
        have := have + {lower(e.hex)};
      }
    }
    assert entries + [] == entries;
  }

  /** Of the entries that are read nothing is lost: every nonempty key is still in the merged table. */
  lemma {:induction false} NothingReadDropped(existing: seq<Entry>, have: set<string>, lower: string -> string, i: nat)
    requires i < |existing| && existing[i].hex != []
    ensures lower(existing[i].hex) in have + Lowers(Preserved(existing, have, lower), lower)
    decreases |existing|
  {
    var e, rest := existing[0], existing[1..];
    var keep := e.hex != [] && lower(e.hex) !in have;
    var have' := if keep then have + {lower(e.hex)} else have;
    var p := Preserved(rest, have', lower);
    var kept := if keep then [e] + p else p;
    assert kept == Preserved(existing, have, lower);
    assert forall x :: x in p ==> x in kept;
    if keep { assert e in kept; }
    if i > 0 { NothingReadDropped(rest, have', lower, i - 1); }
  }

  // Every nonempty key is still there.
  ghost predicate KeepsKeys(es: seq<Entry>, after: seq<Entry>, lower: string -> string) {
    forall k :: 0 <= k < |es| && es[k].hex != [] ==> lower(es[k].hex) in Lowers(after, lower)
  }

  /** No key of a printed file is lost exactly when the file can be read back, or all its keys are new ones. */
  lemma {:induction false} NothingDropped(built: seq<Entry>, existing: seq<Item>, lower: string -> string)
    requires forall i :: i in existing ==> HexDigits(i.entry.hex)
    ensures KeepsKeys(Entries(existing), Rebuild(built, Some(PrintItems(existing)), lower), lower)
       <==> AllReadable(Entries(existing)) || KeepsKeys(Entries(existing), built, lower)
  {
    hide PrintItems, ReadFile, HexDigits, AllReadable, Preserved, Lowers;
    ReadUndoesPrint(existing);
    var have, es := Lowers(built, lower), Entries(existing);
    if AllReadable(es) {
      LowersOfBoth(built, Preserved(es, have, lower), lower);
      forall k | 0 <= k < |es| && es[k].hex != []
        ensures lower(es[k].hex) in have + Lowers(Preserved(es, have, lower), lower)
      {
        NothingReadDropped(es, have, lower, k);
      }
    } else {
      NothingPreserved(have, lower);
      assert built + [] == built;
    }
  }

  lemma {:induction false} LowersOfBoth(a: seq<Entry>, b: seq<Entry>, lower: string -> string)
    ensures Lowers(a + b, lower) == Lowers(a, lower) + Lowers(b, lower)
  {
  }

  lemma {:induction false} NothingPreserved(have: set<string>, lower: string -> string)
    ensures Preserved([], have, lower) == []
  {
  }

  /** Rebuilding from the file just written changes nothing exactly when that file can be read back, or holds
      only new entries. */
  lemma {:induction false} RebuildIsStable(built: seq<Entry>, text: Option<string>, lower: string -> string)
    requires forall e :: e in Rebuild(built, text, lower) ==> HexDigits(e.hex)
    ensures var file := Rebuild(built, text, lower);
            Rebuild(built, Some(Print(file)), lower) == file <==> AllReadable(file) || file == built
  {
    hide Print, ReadFile, HexDigits, AllReadable, Preserved, Lowers, Existing;
    var have, existing := Lowers(built, lower), Existing(text);
    var kept := Preserved(existing, have, lower);
    ReadUndoesTool(built + kept);
    if AllReadable(built + kept) {
      ExistingRead(Print(built + kept), built + kept);
      SkipsKnown(built, kept, have, lower);
      PreservedAgain(existing, have, lower);
    } else {
      ExistingRefused(Print(built + kept));
      NothingPreserved(have, lower);
      assert built + [] == built;
    }
  }

  lemma {:induction false} ExistingRead(text: string, es: seq<Entry>)
    requires ReadFile(text) == Some(es)
    ensures Existing(Some(text)) == es
  {
    hide ReadFile;
  }

  lemma {:induction false} ExistingRefused(text: string)
    requires ReadFile(text) == None
    ensures Existing(Some(text)) == []
  {
    hide ReadFile;
  }

  // An entry whose Japanese text holds a carriage return
  function Unreadable(): Entry { Entry("a4", "\r", "Hello") }

  /** The rebuild drops it, although nothing replaces it. */
  lemma {:induction false} UnreadableIsDropped(lower: string -> string)
    ensures Rebuild([], Some(Print([Unreadable()])), lower) == []
  {
    hide Print, ReadFile, Existing;
    var e := Unreadable();
    assert HexDigits(e.hex);
    assert e.jp[0] in e.jp && !PrintableChar(e.jp[0]) && !Readable(e);
    assert e in [e];
    ReadUndoesTool([e]);
    ExistingRefused(Print([e]));
    NothingPreserved(Lowers([], lower), lower);
  }

  lemma {:induction false} SkipsKnown(built: seq<Entry>, rest: seq<Entry>, have: set<string>, lower: string -> string)
    requires Lowers(built, lower) <= have
    ensures Preserved(built + rest, have, lower) == Preserved(rest, have, lower)
    decreases |built|
  {
    if built == [] {
      assert built + rest == rest;
    } else {
      assert (built + rest)[1..] == built[1..] + rest;
      assert built[0] in built && lower(built[0].hex) in Lowers(built, lower);
      assert Lowers(built[1..], lower) <= Lowers(built, lower);
      SkipsKnown(built[1..], rest, have, lower);
    }
  }

  lemma {:induction false} PreservedAgain(existing: seq<Entry>, have: set<string>, lower: string -> string)
    ensures Preserved(Preserved(existing, have, lower), have, lower) == Preserved(existing, have, lower)
    decreases |existing|
  {
    if existing != [] {
      var e := existing[0];
      if e.hex != [] && lower(e.hex) !in have {
        var p := Preserved(existing[1..], have + {lower(e.hex)}, lower);
        PreservedAgain(existing[1..], have + {lower(e.hex)}, lower);
        assert ([e] + p)[1..] == p;
      } else {
        PreservedAgain(existing[1..], have, lower);
      }
    }
  }

  // ---- What is loaded after a rebuild ----------------------------------------------------------

  predicate StoresAt(e: Entry, hash: seq<Byte> -> int, h: int) {
    HexBytes(e.hex) != [] && Loaded(e) != [] && hash(HexBytes(e.hex)) == h
  }

  // Entry j is the last one that stores a translation for hash h.
  ghost predicate Decides(es: seq<Entry>, hash: seq<Byte> -> int, h: int, j: int) {
    0 <= j < |es| && StoresAt(es[j], hash, h) && forall k :: j < k < |es| ==> !StoresAt(es[k], hash, h)
  }

  // Entry i is carried forward: the first with its key, which is not among the new ones.
  ghost predicate Kept(es: seq<Entry>, have: set<string>, lower: string -> string, i: int) {
    && 0 <= i < |es| && es[i].hex != [] && lower(es[i].hex) !in have
    && forall k :: 0 <= k < i && es[k].hex != [] ==> lower(es[k].hex) != lower(es[i].hex)
  }

  // Entry i is the last one for hash h of those that are carried forward.
  ghost predicate DecidesKept(es: seq<Entry>, have: set<string>, lower: string -> string, hash: seq<Byte> -> int,
                              h: int, i: int) {
    && Kept(es, have, lower, i) && StoresAt(es[i], hash, h)
    && forall k :: i < k < |es| && Kept(es, have, lower, k) ==> !StoresAt(es[k], hash, h)
  }

  lemma {:induction false} ApplySnoc(items: seq<Item>, i: Item, hash: seq<Byte> -> int, m: map<int, Xlate>)
    ensures ApplyAll(m, hash, items + [i]) == Apply(ApplyAll(m, hash, items), hash, i)
    decreases |items|
  {
    hide Apply;
    if items == [] {
      assert items + [i] == [i] && [i][1..] == [];
    } else {
      assert (items + [i])[1..] == items[1..] + [i];
      ApplySnoc(items[1..], i, hash, Apply(m, hash, items[0]));
    }
  }

  lemma {:induction false} ApplyNone(hash: seq<Byte> -> int, m: map<int, Xlate>)
    ensures ApplyAll(m, hash, []) == m
  {
  }

  predicate SameAt(a: map<int, Xlate>, b: map<int, Xlate>, h: int) {
    (h in a <==> h in b) && (h in a ==> a[h] == b[h])
  }

  lemma {:induction false} ApplyAt(m: map<int, Xlate>, hash: seq<Byte> -> int, i: Item, h: int)
    ensures StoresAt(i.entry, hash, h) ==> h in Apply(m, hash, i) && Apply(m, hash, i)[h] == XlateLoaded(i)
    ensures !StoresAt(i.entry, hash, h) ==> SameAt(Apply(m, hash, i), m, h)
  {
    hide HexBytes, Loaded, WidthLoaded;
  }

  // A last entry decides its own hash, and no other one.
  lemma {:induction false} LastDecides(p: seq<Entry>, e: Entry, hash: seq<Byte> -> int, h: int, j: int)
    ensures StoresAt(e, hash, h) ==> (Decides(p + [e], hash, h, j) <==> j == |p|)
    ensures !StoresAt(e, hash, h) ==> (Decides(p + [e], hash, h, j) <==> Decides(p, hash, h, j))
  {
    hide StoresAt;
    var all := p + [e];
    assert all[|p|] == e && forall k :: 0 <= k < |p| ==> all[k] == p[k];
  }

  // Map m holds for h what the item says that decides it.
  ghost predicate StoredBy(m: map<int, Xlate>, items: seq<Item>, hash: seq<Byte> -> int, h: int) {
    && (h in m <==> exists j :: Decides(Entries(items), hash, h, j))
    && (forall j :: Decides(Entries(items), hash, h, j) ==> 0 <= j < |items| && m[h] == XlateLoaded(items[j]))
  }

  lemma {:induction false} StoredByMore(m: map<int, Xlate>, items: seq<Item>, i: Item, hash: seq<Byte> -> int, h: int)
    requires StoredBy(m, items, hash, h)
    ensures StoredBy(Apply(m, hash, i), items + [i], hash, h)
  {
    hide Apply, StoresAt, XlateLoaded, Decides;
    var all := items + [i];
    assert Entries(all) == Entries(items) + [i.entry];
    ApplyAt(m, hash, i, h);
    forall j
      ensures StoresAt(i.entry, hash, h) ==> (Decides(Entries(all), hash, h, j) <==> j == |items|)
      ensures !StoresAt(i.entry, hash, h) ==>
              (Decides(Entries(all), hash, h, j) <==> Decides(Entries(items), hash, h, j))
    {
      LastDecides(Entries(items), i.entry, hash, h, j);
    }
    assert all[|items|] == i;
    if StoresAt(i.entry, hash, h) { assert Decides(Entries(all), hash, h, |items|); }
  }

  /** What is loaded of a printed file, hash by hash. */
  lemma {:induction false} MapOf(items: seq<Item>, hash: seq<Byte> -> int, h: int)
    ensures h in ApplyAll(map[], hash, items) <==> exists j :: Decides(Entries(items), hash, h, j)
    ensures forall j :: Decides(Entries(items), hash, h, j) ==>
              0 <= j < |items| && ApplyAll(map[], hash, items)[h] == XlateLoaded(items[j])
  {
    AllStored(items, hash, h);
  }

  lemma {:induction false} AllStored(items: seq<Item>, hash: seq<Byte> -> int, h: int)
    ensures StoredBy(ApplyAll(map[], hash, items), items, hash, h)
    decreases |items|
  {
    if items == [] {
      ApplyNone(hash, map[]);
      hide ApplyAll, XlateLoaded;
    } else {
      hide Apply, ApplyAll, StoredBy;
      var init, i := items[..|items| - 1], items[|items| - 1];
      AllStored(init, hash, h);
      assert items == init + [i];
      ApplySnoc(init, i, hash, map[]);
      StoredByMore(ApplyAll(map[], hash, init), init, i, hash, h);
    }
  }

  lemma {:induction false} PreservedSnoc(es: seq<Entry>, e: Entry, have: set<string>, lower: string -> string)
    ensures Preserved(es + [e], have, lower) ==
            Preserved(es, have, lower) + (if Kept(es + [e], have, lower, |es|) then [e] else [])
    decreases |es|
  {
    if es == [] {
      assert es + [e] == [e] && [e][1..] == [];
    } else {
      var all, head := es + [e], es[0];
      assert all[1..] == es[1..] + [e];
      var have' := if head.hex != [] && lower(head.hex) !in have then have + {lower(head.hex)} else have;
      PreservedSnoc(es[1..], e, have', lower);
      KeptInTail(all, have, lower);
    }
  }

  lemma {:induction false} KeptInTail(es: seq<Entry>, have: set<string>, lower: string -> string)
    requires |es| > 1
    ensures var head := es[0];
            var have' := if head.hex != [] && lower(head.hex) !in have then have + {lower(head.hex)} else have;
            Kept(es, have, lower, |es| - 1) <==> Kept(es[1..], have', lower, |es| - 2)
  {
    var n, rest := |es| - 1, es[1..];
    forall k | 0 <= k < n - 1
      ensures rest[k] == es[k + 1]
    {
    }
    if es[n].hex != [] && forall k :: 0 <= k < n - 1 && rest[k].hex != [] ==> lower(rest[k].hex) != lower(es[n].hex) {
      forall k | 1 <= k < n && es[k].hex != []
        ensures lower(es[k].hex) != lower(es[n].hex)
      {
        assert rest[k - 1] == es[k];
      }
    }
  }

  // The last of the entries carried forward that stores something is the last one of the file that does and is kept.
  lemma {:induction false} DeciderOfKept(es: seq<Entry>, have: set<string>, lower: string -> string,
                                         hash: seq<Byte> -> int, h: int)
    ensures var p := Preserved(es, have, lower);
            && ((exists j :: Decides(p, hash, h, j)) <==> exists i :: DecidesKept(es, have, lower, hash, h, i))
            && (forall i, j :: DecidesKept(es, have, lower, hash, h, i) && Decides(p, hash, h, j) ==> p[j] == es[i])
    decreases |es|
  {
    hide StoresAt, Preserved;
    if es == [] {
      NothingPreserved(have, lower);
    } else {
      var init, n := es[..|es| - 1], |es| - 1;
      var p, all := Preserved(init, have, lower), Preserved(es, have, lower);
      DeciderOfKept(init, have, lower, hash, h);
      assert es == init + [es[n]];
      PreservedSnoc(init, es[n], have, lower);
      forall i
        ensures 0 <= i < n ==> (Kept(es, have, lower, i) <==> Kept(init, have, lower, i))
      {
      }
      if Kept(es, have, lower, n) && StoresAt(es[n], hash, h) {
        assert DecidesKept(es, have, lower, hash, h, n);
        assert Decides(all, hash, h, |p|);
      } else {
        forall i
          ensures DecidesKept(es, have, lower, hash, h, i) <==> DecidesKept(init, have, lower, hash, h, i)
        {
        }
        forall j
          ensures Decides(all, hash, h, j) <==> Decides(p, hash, h, j)
        {
          if Kept(es, have, lower, n) { LastDecides(p, es[n], hash, h, j); }
          assert p + [] == p;
        }
      }
    }
  }

  lemma {:induction false} DeciderExists(es: seq<Entry>, hash: seq<Byte> -> int, h: int, i: int)
    requires 0 <= i < |es| && StoresAt(es[i], hash, h)
    ensures exists j :: Decides(es, hash, h, j)
    decreases |es| - i
  {
    hide StoresAt;
    if k :| i < k < |es| && StoresAt(es[k], hash, h) {
      DeciderExists(es, hash, h, k);
    } else {
      assert Decides(es, hash, h, i);
    }
  }

  // Some entry stores a translation for hash h.
  ghost predicate Translates(es: seq<Entry>, hash: seq<Byte> -> int, h: int) {
    exists i :: 0 <= i < |es| && StoresAt(es[i], hash, h)
  }

  lemma {:induction false} NotBuilt(built: seq<Entry>, kept: seq<Entry>, hash: seq<Byte> -> int, h: int, i: int)
    requires !Translates(built, hash, h) && Decides(built + kept, hash, h, i)
    ensures i >= |built|
  {
    hide StoresAt;
  }

  // Where the new entries store nothing the kept ones decide.
  lemma {:induction false} BuiltComeFirst(built: seq<Entry>, kept: seq<Entry>, hash: seq<Byte> -> int, h: int)
    requires !Translates(built, hash, h)
    ensures (exists j :: Decides(built + kept, hash, h, j)) <==> exists j :: Decides(kept, hash, h, j)
    ensures forall i, j :: Decides(built + kept, hash, h, i) && Decides(kept, hash, h, j) ==>
              (built + kept)[i] == kept[j]
  {
    hide StoresAt;
    var all, n := built + kept, |built|;
    forall j | Decides(kept, hash, h, j)
      ensures Decides(all, hash, h, n + j)
    {
      forall k | n + j < k < |all|
        ensures !StoresAt(all[k], hash, h)
      {
        assert all[k] == kept[k - n];
      }
    }
    forall i | Decides(all, hash, h, i)
      ensures i >= n && Decides(kept, hash, h, i - n)
    {
      NotBuilt(built, kept, hash, h, i);
      forall k | i - n < k < |kept|
        ensures i >= n ==> !StoresAt(kept[k], hash, h)
      {
        assert all[n + k] == kept[k];
      }
    }
  }

  /** The entry carried forward that decides hash h says what the deciding entry of the file says. */
  ghost predicate SaysTheSame(existing: seq<Entry>, have: set<string>, lower: string -> string,
                              hash: seq<Byte> -> int, h: int) {
    forall j :: Decides(existing, hash, h, j) ==>
      exists i :: DecidesKept(existing, have, lower, hash, h, i) && Loaded(existing[i]) == Loaded(existing[j])
  }

  predicate SameTarget(a: map<int, Xlate>, b: map<int, Xlate>, h: int) {
    (h in a <==> h in b) && (h in a ==> a[h].target == b[h].target)
  }

  // The same target is stored for hash h by the entries that decide it, or none.
  ghost predicate DecidedAlike(es: seq<Entry>, after: seq<Entry>, hash: seq<Byte> -> int, h: int) {
    && ((exists j :: Decides(es, hash, h, j)) <==> exists i :: Decides(after, hash, h, i))
    && (forall i, j :: Decides(es, hash, h, j) && Decides(after, hash, h, i) ==> Loaded(after[i]) == Loaded(es[j]))
  }

  // What map m holds for h is what the entry says that decides it.
  ghost predicate DecidedBy(m: map<int, Xlate>, es: seq<Entry>, hash: seq<Byte> -> int, h: int) {
    && (h in m <==> exists j :: Decides(es, hash, h, j))
    && (forall j :: Decides(es, hash, h, j) ==> m[h].target == Loaded(es[j]))
  }

  lemma {:induction false} FileIsDecided(items: seq<Item>, hash: seq<Byte> -> int, h: int)
    ensures DecidedBy(ApplyAll(map[], hash, items), Entries(items), hash, h)
  {
    hide ApplyAll, StoresAt, Loaded, WidthLoaded;
    MapOf(items, hash, h);
  }

  lemma {:induction false} DecidedTargets(a: map<int, Xlate>, es: seq<Entry>, b: map<int, Xlate>, after: seq<Entry>,
                                          hash: seq<Byte> -> int, h: int)
    requires DecidedBy(a, es, hash, h) && DecidedBy(b, after, hash, h)
    ensures SameTarget(a, b, h) <==> DecidedAlike(es, after, hash, h)
  {
    hide StoresAt, Loaded;
  }

  lemma {:induction false} TargetsCompared(existing: seq<Item>, after: seq<Entry>, hash: seq<Byte> -> int, h: int)
    ensures SameTarget(ApplyAll(map[], hash, existing), ApplyAll(map[], hash, Bares(after)), h)
       <==> DecidedAlike(Entries(existing), after, hash, h)
  {
    hide ApplyAll, DecidedBy, DecidedAlike, SameTarget, Bares;
    FileIsDecided(existing, hash, h);
    FileIsDecided(Bares(after), hash, h);
    BaresAre(after);
    assert Entries(Bares(after)) == after;
    DecidedTargets(ApplyAll(map[], hash, existing), Entries(existing), ApplyAll(map[], hash, Bares(after)), after,
                   hash, h);
  }

  lemma {:induction false} KeptSaysTheSame(built: seq<Entry>, es: seq<Entry>, lower: string -> string,
                                           hash: seq<Byte> -> int, h: int)
    requires !Translates(built, hash, h)
    ensures var have := Lowers(built, lower);
            DecidedAlike(es, built + Preserved(es, have, lower), hash, h) <==> SaysTheSame(es, have, lower, hash, h)
  {
    hide StoresAt, Loaded, Preserved, Kept, Translates, Lowers;
    var have := Lowers(built, lower);
    var p := Preserved(es, have, lower);
    BuiltComeFirst(built, p, hash, h);
    DeciderOfKept(es, have, lower, hash, h);
    if i :| DecidesKept(es, have, lower, hash, h, i) {
      KeptIsThere(es, have, lower, i);
      DeciderExists(es, hash, h, i);
    }
    OneDecider(es, hash, h);
    OneDecider(built + p, hash, h);
    OneKept(es, have, lower, hash, h);
  }

  lemma {:induction false} OneDecider(es: seq<Entry>, hash: seq<Byte> -> int, h: int)
    ensures forall i, j :: Decides(es, hash, h, i) && Decides(es, hash, h, j) ==> i == j
  {
    hide StoresAt;
  }

  lemma {:induction false} OneKept(es: seq<Entry>, have: set<string>, lower: string -> string, hash: seq<Byte> -> int,
                                   h: int)
    ensures forall i, j :: DecidesKept(es, have, lower, hash, h, i) && DecidesKept(es, have, lower, hash, h, j) ==>
              i == j
  {
    hide StoresAt;
  }

  lemma {:induction false} KeptIsThere(es: seq<Entry>, have: set<string>, lower: string -> string, i: int)
    requires Kept(es, have, lower, i)
    ensures 0 <= i < |es|
  {
  }

  lemma {:induction false} NoneSaysTheSame(built: seq<Entry>, es: seq<Entry>, hash: seq<Byte> -> int, h: int)
    requires !Translates(built, hash, h)
    ensures (exists j :: Decides(es, hash, h, j)) <==> Translates(es, hash, h)
    ensures !exists i :: Decides(built, hash, h, i)
  {
    hide StoresAt;
    if i :| 0 <= i < |es| && StoresAt(es[i], hash, h) { DeciderExists(es, hash, h, i); }
  }

  // For every hash for which no new entry stores a translation the same target is loaded as before.
  ghost predicate OthersUnchanged(built: seq<Entry>, hash: seq<Byte> -> int, before: map<int, Xlate>,
                                  after: map<int, Xlate>) {
    forall h :: !Translates(built, hash, h) ==> SameTarget(before, after, h)
  }

  /** A rebuild keeps the first of several existing entries with one key, the loader uses the last one that
      stores something; and a file that is refused is lost. The target loaded for a string that the new entries
      do not translate is the same before and after exactly when those two entries say the same, or the file
      does not translate it either. The widths of the file are lost in any case, as PrintedWidths says. */
  lemma {:induction false} RebuildKeepsMap(built: seq<Entry>, existing: seq<Item>, lower: string -> string,
                                           hash: seq<Byte> -> int)
    requires forall e :: e in built + Entries(existing) ==> HexDigits(e.hex)
    ensures OthersUnchanged(built, hash, LoadFrom(PrintItems(existing), hash, 0, map[]),
              LoadFrom(Print(Rebuild(built, Some(PrintItems(existing)), lower)), hash, 0, map[]))
       <==> forall h :: !Translates(built, hash, h) ==>
              var es := Entries(existing);
              if AllReadable(es) then SaysTheSame(es, Lowers(built, lower), lower, hash, h)
              else !Translates(es, hash, h)
  {
    hide LoadFrom, Print, PrintItems, ReadFile, HexDigits, AllReadable, Preserved, Lowers, Existing, ApplyAll,
      Translates, SaysTheSame, SameTarget, Decides;
    var es, have := Entries(existing), Lowers(built, lower);
    forall i | i in existing
      ensures HexDigits(i.entry.hex)
    {
      var k :| 0 <= k < |existing| && existing[k] == i;
      assert es[k] in built + es;
    }
    ReadUndoesPrint(existing);
    var kept := if AllReadable(es) then Preserved(es, have, lower) else [];
    PreservedAreThere(es, have, lower);
    NothingPreserved(have, lower);
    if AllReadable(es) { ExistingRead(PrintItems(existing), es); } else { ExistingRefused(PrintItems(existing)); }
    var after := built + kept;
    LoadUndoesPrint(existing, hash);
    LoadOfTool(after, hash);
    forall h | !Translates(built, hash, h)
      ensures SameTarget(ApplyAll(map[], hash, existing), ApplyAll(map[], hash, Bares(after)), h)
         <==> if AllReadable(es) then SaysTheSame(es, have, lower, hash, h) else !Translates(es, hash, h)
    {
      TargetsCompared(existing, after, hash, h);
      KeptSaysTheSame(built, es, lower, hash, h);
      NoneSaysTheSame(built, es, hash, h);
      assert !AllReadable(es) ==> after == built;
    }
  }

  lemma {:induction false} LoadOfTool(es: seq<Entry>, hash: seq<Byte> -> int)
    requires forall e :: e in es ==> HexDigits(e.hex)
    ensures LoadFrom(Print(es), hash, 0, map[]) == ApplyAll(map[], hash, Bares(es))
  {
    hide LoadFrom, Print, PrintItems, ApplyAll, HexDigits;
    BaresAre(es);
    forall i | i in Bares(es)
      ensures HexDigits(i.entry.hex)
    {
      var k :| 0 <= k < |es| && Bares(es)[k] == i;
      assert es[k] in es;
    }
    LoadUndoesPrint(Bares(es), hash);
  }

  lemma {:induction false} PreservedAreThere(es: seq<Entry>, have: set<string>, lower: string -> string)
    ensures forall e :: e in Preserved(es, have, lower) ==> e in es
    decreases |es|
  {
    if es != [] {
      var head := es[0];
      var have' := if head.hex != [] && lower(head.hex) !in have then have + {lower(head.hex)} else have;
      PreservedAreThere(es[1..], have', lower);
    }
  }

  // Two existing entries with one key, and a width
  function Doubled(): seq<Item> {
    [Item(Entry("a4", "", "first"), Some(3), None), Item(Entry("a4", "", "second"), Some(3), None)]
  }

  /** The loader takes the second before a rebuild, and the first after it, without its width. */
  lemma {:induction false} RebuildChangesDoubled(lower: string -> string, hash: seq<Byte> -> int)
    ensures LoadFrom(PrintItems(Doubled()), hash, 0, map[]) == map[hash([0xA4]) := Xlate("second", 3, -1)]
    ensures LoadFrom(Print(Rebuild([], Some(PrintItems(Doubled())), lower)), hash, 0, map[])
         == map[hash([0xA4]) := Unsized("first")]
  {
    hide LoadFrom, Print, PrintItems, ReadFile, Existing, HexBytes, Loaded, WidthLoaded, Lowers, Entries;
    var items, es := Doubled(), Entries(Doubled());
    var first := items[0].entry;
    HexRoundTrip("a4", [0xA4]);
    PlainTexts();
    ReadUndoesPrint(items);
    ExistingRead(PrintItems(items), es);
    FirstOfDoubled(lower);
    assert [] + [first] == [first];
    LoadUndoesPrint(items, hash);
    LoadOfTool([first], hash);
    assert items[1..] == [items[1]] && items[1..][1..] == [];
    assert Bares([first]) == [Bare(first)] by { BaresAre([first]); }
    ApplyOne(map[], hash, Bare(first));
    NoWidth(first);
    assert hash(HexBytes("a4")) == hash([0xA4]);
  }

  lemma {:induction false} NoFake(v: string, k: string)
    requires k != [] && (v == [] || v[|v| - 1] != k[|k| - 1])
    ensures !Fakes(v, k)
  {
    EndsWithSaysLast("\"" + v, "\"" + k);
    EndsShorter("\"" + v, "\"" + k);
    hide EndsWith;
  }

  // A text of letters that ends unlike the keys, without a Japanese text
  lemma {:induction false} PlainItem(i: Item)
    requires i.entry.jp == [] && i.entry.en != [] && i.entry.en[|i.entry.en| - 1] !in "xw"
    requires forall k :: 0 <= k < |i.entry.en| ==> 'a' <= i.entry.en[k] <= 'z'
    ensures XlateLoaded(i) == Xlate(i.entry.en, OrMissing(i.origW), OrMissing(i.fitW)) && Readable(i.entry)
  {
    var e := i.entry;
    NoFake(e.jp, "src_hex");
    NoFake(e.jp, "target");
    NoFake(e.jp, "orig_w");
    NoFake(e.jp, "fit_w");
    NoFake(e.en, "src_hex");
    NoFake(e.en, "orig_w");
    NoFake(e.en, "fit_w");
    hide Fakes;
    LettersAreRead(e.en);
  }

  lemma {:induction false} PlainTexts()
    ensures AllReadable(Entries(Doubled()))
    ensures XlateLoaded(Doubled()[0]).target == "first" && XlateLoaded(Doubled()[1]) == Xlate("second", 3, -1)
    ensures Loaded(Doubled()[0].entry) == "first"
  {
    PlainItem(Doubled()[0]);
    PlainItem(Doubled()[1]);
    hide Readable, Loaded, WidthLoaded;
    forall e | e in Entries(Doubled())
      ensures Readable(e)
    {
      var k :| 0 <= k < 2 && Entries(Doubled())[k] == e;
    }
  }

  lemma {:induction false} FirstOfDoubled(lower: string -> string)
    ensures Preserved(Entries(Doubled()), Lowers([], lower), lower) == [Doubled()[0].entry]
  {
    var es := Entries(Doubled());
    assert es[1..] == [es[1]] && es[1..][1..] == [];
    assert Preserved(es[1..][1..], Lowers([], lower) + {lower("a4")}, lower) == [];
    assert Preserved(es[1..], Lowers([], lower) + {lower("a4")}, lower) == [];
  }
}
