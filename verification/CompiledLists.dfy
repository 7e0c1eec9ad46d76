/** What holds of every matcher compiled from text: stacking lists is compiling one file, and when
    such a matcher survives its artifact. */
module CompiledLists {
  import opened Sequences
  import opened Bytes
  import opened Names
  import opened Blocklist
  import opened Install
  import opened Artifact
  import opened LineCompiler
  import Trie
  import Digest
  import Utf8

  /** The reader yields clean names only. */
  ghost predicate YieldsClean(f: seq<byte> -> seq<Entry>) {
    forall line, e :: e in f(line) ==> Spaceless(e.domain)
  }

  lemma ReaderYieldsClean(sink: string -> bool)
    ensures YieldsClean(Reader(sink))
  {
    forall line, e | e in Reader(sink)(line) ensures Spaceless(e.domain) {
      ParsedIsClean(Utf8.Decode(line).value, sink);
    }
  }

  ghost predicate AllClean(entries: seq<Entry>) {
    forall i :: 0 <= i < |entries| ==> Spaceless(entries[i].domain)
  }

  lemma {:induction false} ReadIsClean(f: seq<byte> -> seq<Entry>, lines: seq<seq<byte>>)
    requires YieldsClean(f)
    ensures AllClean(ReadLines(f, lines))
  {
    if lines != [] {
      var last := lines[|lines| - 1];
      ReadIsClean(f, lines[..|lines| - 1]);
      forall i | 0 <= i < |f(last)| ensures Spaceless(f(last)[i].domain) { assert f(last)[i] in f(last); }
    }
  }

  lemma EntriesAreClean(bytes: seq<byte>, sink: string -> bool)
    ensures AllClean(Entries(bytes, sink))
  {
    ReaderYieldsClean(sink);
    ReadIsClean(Reader(sink), Split(bytes, NEWLINE));
  }

  lemma CleanIsSelfNormal(entries: seq<Entry>)
    requires AllClean(entries)
    ensures AllSelfNormal(Load(entries))
  {
    LoadIsMinimal(entries);
    forall p | p in Trie.Terminals(Load(entries)) ensures p != [] && SelfNormal(p) {
      var i := ZoneEntry(entries, p);
      SpacelessIsSelfNormal(entries[i].domain);
    }
  }

  /** Every name a compiled matcher holds reads back as itself. */
  lemma CompiledIsSelfNormal(bytes: seq<byte>, sink: string -> bool)
    ensures AllSelfNormal(Load(Entries(bytes, sink)))
  {
    EntriesAreClean(bytes, sink);
    CleanIsSelfNormal(Entries(bytes, sink));
  }

  // ---- Stacking lists ----

  /** One installation: a list's text, replacing or merging. */
  datatype Installation = Installation(text: seq<byte>, merge: bool)

  /** The installed terminals after a run, as each installation leaves them. */
  ghost function Active(run: seq<Installation>, sink: string -> bool): Option<set<Path>> {
    if run == [] then None
    else
      var before, last := Active(run[..|run| - 1], sink), run[|run| - 1];
      var next := Load(Entries(last.text, sink));
      if last.merge && before.Some? then Some(Trie.Minimal(before.value + ReadBack(next)))
      else Some(Trie.Terminals(next))
  }

  /** The texts since the last replacement, joined by newlines. */
  ghost function Stacked(run: seq<Installation>): seq<byte>
    requires run != []
  {
    var before, last := run[..|run| - 1], run[|run| - 1];
    if last.merge && before != [] then Stacked(before) + [NEWLINE] + last.text else last.text
  }

  lemma PathsConcat(f: string -> Path, xs: seq<Entry>, ys: seq<Entry>)
    ensures PathsBy(f, xs + ys) == PathsBy(f, xs) + PathsBy(f, ys)
  {
    forall i | 0 <= i < |xs + ys| ensures PathsBy(f, xs + ys)[i] == (PathsBy(f, xs) + PathsBy(f, ys))[i] {
      assert (xs + ys)[i] == if i < |xs| then xs[i] else ys[i - |xs|];
    }
  }

  lemma ZonesConcat(xs: seq<Entry>, ys: seq<Entry>)
    ensures Zones(xs + ys) == Zones(xs) + Zones(ys)
  {
    PathsConcat(InsertPath, xs, ys);
    NamedOf(PathsBy(InsertPath, xs), PathsBy(InsertPath, ys));
  }

  lemma NamedOf(a: seq<Path>, b: seq<Path>)
    ensures (set p | p in a + b && p != []) == (set p | p in a && p != []) + (set p | p in b && p != [])
  {}

  lemma MinimalUnion(a: set<Path>, b: set<Path>)
    ensures Trie.Minimal(Trie.Minimal(a) + Trie.Minimal(b)) == Trie.Minimal(a + b)
  {
    var m := Trie.Minimal(a) + Trie.Minimal(b);
    forall p ensures Trie.Covered(m, p) <==> Trie.Covered(a + b, p) {
      Trie.CoveredUnion(a, b, p);
      Trie.CoveredUnion(Trie.Minimal(a), Trie.Minimal(b), p);
      Trie.MinimalCovers(a, p);
      Trie.MinimalCovers(b, p);
    }
    Trie.SameCoverSameMinimal(m, a + b);
  }

  /** Merging one compiled list into another is compiling the two texts as one. */
  lemma MergeIsConcat(a: seq<byte>, b: seq<byte>, sink: string -> bool)
    ensures Trie.Minimal(Trie.Terminals(Load(Entries(a, sink))) + ReadBack(Load(Entries(b, sink)))) ==
            Trie.Terminals(Load(Entries(a + [NEWLINE] + b, sink)))
  {
    var xs, ys := Entries(a, sink), Entries(b, sink);
    CompiledIsSelfNormal(b, sink);
    SelfNormalReadsBack(Load(ys));
    LoadIsMinimal(xs);
    LoadIsMinimal(ys);
    LoadIsMinimal(xs + ys);
    ZonesConcat(xs, ys);
    MinimalUnion(Zones(xs), Zones(ys));
    LinesAreIndependent(a, b, sink);
  }

  /** After any run of installations the active set is the one a single file would compile to: the
      texts since the last replacement, one after another. */
  lemma {:induction false} StackIsOneFile(run: seq<Installation>, sink: string -> bool)
    requires run != []
    ensures Active(run, sink) == Some(Trie.Terminals(Load(Entries(Stacked(run), sink))))
  {
    var before, last := run[..|run| - 1], run[|run| - 1];
    if before != [] {
      StackIsOneFile(before, sink);
      if last.merge { MergeIsConcat(Stacked(before), last.text, sink); }
    }
  }

  lemma WholeDelivered(text: seq<byte>)
    ensures Delivered([Some(text)]) == text
  {
    assert [Some(text)][1..] == [];
  }

  /** Carry out a run of installations: compile each text, then install it or replay it. */
  method InstallAll(run: seq<Installation>, sink: string -> bool) returns (store: Installed)
    ensures fresh(store) && (store.active == null <==> run == [])
    ensures store.active != null ==> store.active.Valid() && store.active.Finalized()
    ensures store.active != null ==> Active(run, sink) == Some(Trie.Terminals(store.active.root))
    ensures store.active != null ==> Trie.Terminals(store.active.root) == Trie.Terminals(Load(Entries(Stacked(run), sink)))
  {
    store := new Installed();
    for i := 0 to |run|
      invariant fresh(store) && (store.active == null <==> i == 0) && (store.active != null ==> fresh(store.active))
      invariant store.active != null ==> store.active.Valid() && store.active.Finalized()
      invariant store.active != null ==> Active(run[..i], sink) == Some(Trie.Terminals(store.active.root))
    {
      assert run[..i + 1][..i] == run[..i];
      assert Delivered([Some(run[i].text)]) == run[i].text by { WholeDelivered(run[i].text); }
      var next := CompileReader([Some(run[i].text)], sink);
      var _, _ := store.InstallCompiled(next, run[i].merge);
    }
    assert run[..|run|] == run;
    if run != [] { StackIsOneFile(run, sink); }
  }

  // ---- Names and their encoded length ----

  /** Folding at most doubles a name in bytes, and keeps its length unless it holds the widening
      capital. */
  lemma {:induction false} LowerBytes(s: string, i: nat)
    requires i <= |s|
    ensures |Utf8.Encode(LowerFrom(s, i))| <= 2 * |Utf8.Encode(s[i..])|
    ensures STROKE_A !in s ==> |Utf8.Encode(LowerFrom(s, i))| == |Utf8.Encode(s[i..])|
    decreases |s| - i
  {
    if i < |s| {
      LowerBytes(s, i + 1);
      assert s[i..] == [s[i]] + s[i + 1..];
      Utf8.EncodeCons(s[i], s[i + 1..]);
      Utf8.EncodeCons(LowerAt(s, i), LowerFrom(s, i + 1));
    }
  }

  lemma SliceBytes(s: string, lo: nat, hi: nat)
    requires lo <= hi <= |s|
    ensures |Utf8.Encode(s[lo..hi])| <= |Utf8.Encode(s)|
  {
    assert s == s[..lo] + s[lo..hi] + s[hi..];
    Utf8.EncodeConcat(s[..lo] + s[lo..hi], s[hi..]);
    Utf8.EncodeConcat(s[..lo], s[lo..hi]);
  }

  lemma {:induction false} TidyBytes(pieces: seq<string>)
    ensures |Utf8.Encode(Join(NonEmpty(pieces), DOT))| <= |Utf8.Encode(Join(pieces, DOT))|
  {
    if |pieces| > 1 {
      TidyBytes(pieces[1..]);
      JoinBytes(pieces);
      if pieces[0] != "" {
        var kept := NonEmpty(pieces);
        assert kept[1..] == NonEmpty(pieces[1..]);
        if |kept| > 1 { JoinBytes(kept); } else { assert Join(kept, DOT) == pieces[0]; }
      }
    }
  }

  lemma JoinBytes(pieces: seq<string>)
    requires |pieces| > 1
    ensures |Utf8.Encode(Join(pieces, DOT))| ==
            |Utf8.Encode(pieces[0])| + |Utf8.Encode([DOT])| + |Utf8.Encode(Join(pieces[1..], DOT))|
  {
    Utf8.EncodeConcat(pieces[0] + [DOT], Join(pieces[1..], DOT));
    Utf8.EncodeConcat(pieces[0], [DOT]);
  }

  lemma TrimmedIsSlice(d: string) returns (lo: nat, hi: nat)
    ensures lo <= hi <= |d| && Trimmed(d) == d[lo..hi]
  {
    var t := TrimStart(d);
    TrimStartDrops(d);
    TrimEndDrops(t);
    TrimEndDotsDrops(TrimEnd(t));
    lo := |d| - |t|;
    hi := lo + |Trimmed(d)|;
  }

  lemma NormalizeBytes(d: string)
    ensures |Utf8.Encode(Normalize(d))| <= 2 * |Utf8.Encode(d)|
    ensures STROKE_A !in d ==> |Utf8.Encode(Normalize(d))| <= |Utf8.Encode(d)|
  {
    var lo, hi := TrimmedIsSlice(d);
    var t := Trimmed(d);
    SliceBytes(d, lo, hi);
    LowerBytes(t, 0);
    assert t[0..] == t;
    TidyBytes(Split(Lower(t), DOT));
    JoinSplit(Lower(t), DOT);
    if STROKE_A !in d { assert STROKE_A !in t; }
  }

  // ---- The artifact of a compiled list ----

  ghost predicate WithinBounds(f: seq<byte> -> seq<Entry>) {
    forall line, e :: e in f(line) ==> |Utf8.Encode(e.domain)| <= MAX_NAME_LEN
  }

  ghost predicate AllWithin(entries: seq<Entry>) {
    forall i :: 0 <= i < |entries| ==> |Utf8.Encode(entries[i].domain)| <= MAX_NAME_LEN
  }

  lemma ReaderWithinBounds(sink: string -> bool)
    ensures WithinBounds(Reader(sink))
  {
    forall line, e | e in Reader(sink)(line) ensures |Utf8.Encode(e.domain)| <= MAX_NAME_LEN {
      ParsedIsClean(Utf8.Decode(line).value, sink);
    }
  }

  lemma {:induction false} ReadWithinBounds(f: seq<byte> -> seq<Entry>, lines: seq<seq<byte>>)
    requires WithinBounds(f)
    ensures AllWithin(ReadLines(f, lines))
  {
    if lines != [] {
      var last := lines[|lines| - 1];
      ReadWithinBounds(f, lines[..|lines| - 1]);
      forall i | 0 <= i < |f(last)| ensures |Utf8.Encode(f(last)[i].domain)| <= MAX_NAME_LEN {
        assert f(last)[i] in f(last);
      }
    }
  }

  lemma BlockedNameEntry(entries: seq<Entry>, n: string) returns (i: nat)
    requires n in BlockedNames(Load(entries))
    ensures i < |entries| && n == Normalize(entries[i].domain)
  {
    LoadIsMinimal(entries);
    var p :| p in Trie.Terminals(Load(entries)) && n == NameOf([] + p);
    assert [] + p == p;
    i := ZoneEntry(entries, p);
    NameOfInsertPath(entries[i].domain);
  }

  /** No name holds the capital that widens when folded. */
  ghost predicate NeverWidens(entries: seq<Entry>) {
    forall i :: 0 <= i < |entries| ==> STROKE_A !in entries[i].domain
  }

  lemma NamesFit(entries: seq<Entry>, names: seq<string>)
    requires AllWithin(entries) && Lists(names, BlockedNames(Load(entries)))
    ensures Representable(names) && (NeverWidens(entries) ==> Short(names))
  {
    forall k | 0 <= k < |names|
      ensures |Utf8.Encode(names[k])| <= 2 * MAX_NAME_LEN
      ensures NeverWidens(entries) ==> |Utf8.Encode(names[k])| <= MAX_NAME_LEN
    {
      assert names[k] in names;
      var i := BlockedNameEntry(entries, names[k]);
      NormalizeBytes(entries[i].domain);
    }
  }

  /** A compiled list of fewer than 2^32 names survives its artifact, same set and same trie, if and
      only if every stored name still fits in 253 bytes; it always does when no name widens. */
  lemma CompiledRoundTrip(text: seq<byte>, sink: string -> bool, names: seq<string>)
    requires Lists(names, BlockedNames(Load(Entries(text, sink)))) && |names| < 0x1_0000_0000
    ensures var t := Load(Entries(text, sink));
            var r := Accepted(Encoded(Digest.Fingerprint(BlockedNames(t)), names));
            && (r.Some? <==> Short(names))
            && (NeverWidens(Entries(text, sink)) ==> r.Some?)
            && (r.Some? ==> Trie.Terminals(r.value) == Trie.Terminals(t) && Trie.Erase(r.value) == Trie.Erase(t))
  {
    var entries := Entries(text, sink);
    ReaderWithinBounds(sink);
    ReadWithinBounds(Reader(sink), Split(text, NEWLINE));
    NamesFit(entries, names);
    CompiledIsSelfNormal(text, sink);
    LoadIsMinimal(entries);
    RoundTrip(Load(entries), names);
  }

  function Repeat(c: char, n: nat): (r: string)
    ensures |r| == n && forall i :: 0 <= i < n ==> r[i] == c
  {
    if n == 0 then "" else [c] + Repeat(c, n - 1)
  }

  lemma {:induction false} RepeatBytes(c: char, n: nat)
    ensures |Utf8.Encode(Repeat(c, n))| == n * |Utf8.EncodeChar(c)|
  {
    if n > 0 {
      RepeatBytes(c, n - 1);
      Utf8.EncodeCons(c, Repeat(c, n - 1));
    }
  }

  /** Some copies of one letter, and a one-letter suffix. */
  function TwoLabels(c: char, n: nat): string { Repeat(c, n) + [DOT, 'c'] }

  lemma TwoLabelsSplit(c: char, n: nat)
    requires n > 0 && c != DOT
    ensures Split(TwoLabels(c, n), DOT) == [Repeat(c, n), ['c']]
  {
    var l := Repeat(c, n);
    assert l + [DOT, 'c'] == l + [DOT] + ['c'];
    SplitFirst(l, ['c'], DOT);
    SplitPrepend(['c'], [], DOT);
    assert ['c'] + [] == ['c'];
  }

  lemma TwoLabelsBytes(c: char, n: nat)
    ensures |Utf8.Encode(TwoLabels(c, n))| == n * |Utf8.EncodeChar(c)| + 2
  {
    RepeatBytes(c, n);
    Utf8.EncodeConcat(Repeat(c, n), [DOT, 'c']);
    Utf8.EncodeCons(DOT, ['c']);
    Utf8.EncodeCons('c', []);
    assert [DOT] + ['c'] == [DOT, 'c'] && ['c'] + [] == ['c'];
  }

  lemma TwoLabelsPlain(c: char, n: nat)
    requires n > 0 && !IsSpace(c) && c != '#' && c != '*' && c != '!' && c != '|'
    ensures Plain(TwoLabels(c, n))
  {
    var d := TwoLabels(c, n);
    assert d[0] == c && d[|d| - 1] == 'c';
  }

  /** Folding a name whose letters fold one by one. */
  lemma TwoLabelsFold(c: char, n: nat)
    requires n > 0 && !IsSpace(c) && c != '#' && c != '*' && c != '!' && c != '|' && c != DOT && c != SIGMA
    ensures Normalize(TwoLabels(c, n)) == TwoLabels(LowerChar(c), n)
  {
    var d, low := TwoLabels(c, n), TwoLabels(LowerChar(c), n);
    TwoLabelsPlain(c, n);
    NoSpaceTrim(d);
    TrimEndDotsFixes(d);
    LowerChars(d);
    assert Lower(d) == low;
    TwoLabelsSplit(LowerChar(c), n);
    NonEmptyKeeps([Repeat(LowerChar(c), n), ['c']]);
    JoinSplit(low, DOT);
  }

  lemma WideNameIsBlockable(n: nat)
    requires 1 <= n <= 125
    ensures Blockable(TwoLabels(STROKE_A, n))
  {
    var d := TwoLabels(STROKE_A, n);
    TwoLabelsSplit(STROKE_A, n);
    TwoLabelsBytes(STROKE_A, n);
    assert d[n] == DOT;
    assert Split(d, DOT)[0][0] == STROKE_A;
    assert !Digits(Split(d, DOT)[0]);
  }

  lemma TooWide(names: seq<string>, name: string)
    requires name in names && |Utf8.Encode(name)| > MAX_NAME_LEN
    ensures !Short(names)
  {}

  lemma RefusedIfNotShort(names: seq<string>, fingerprint: Digest.u64)
    requires Representable(names) && |names| < 0x1_0000_0000 && !Short(names)
    ensures Accepted(Encoded(fingerprint, names)) == None
  {
    ReadBackEncoded(fingerprint, names, []);
    assert Encoded(fingerprint, names) + [] == Encoded(fingerprint, names);
  }

  lemma PlainParses(d: string, sink: string -> bool)
    requires Blockable(d) && Plain(d)
    ensures ParseLine(d, sink) == Some(d)
  {
    Bare(d);
    NotationsAgree(d, false, false, false, "", "", sink);
  }

  lemma Bare(d: string)
    ensures "" + Marked(Starred(d, false), false, false) + "" == d
  {}

  /** The compiler accepts up to 125 widening capitals in a name. */
  lemma WideNameCompiles(n: nat, sink: string -> bool)
    requires 1 <= n <= 125
    ensures ParseLine(TwoLabels(STROKE_A, n), sink) == Some(TwoLabels(STROKE_A, n))
  {
    WideNameIsBlockable(n);
    TwoLabelsPlain(STROKE_A, n);
    PlainParses(TwoLabels(STROKE_A, n), sink);
  }

  /** It stores their wider small letters. */
  lemma WideNameIsStored(n: nat)
    requires n >= 1
    ensures Normalize(TwoLabels(STROKE_A, n)) == TwoLabels(SMALL_STROKE_A, n)
  {
    TwoLabelsFold(STROKE_A, n);
  }

  /** And from 84 of them on, every artifact that lists the stored name is refused. */
  lemma WideNameIsRefused(n: nat, names: seq<string>, fingerprint: Digest.u64)
    requires n >= 84 && TwoLabels(SMALL_STROKE_A, n) in names && Representable(names) && |names| < 0x1_0000_0000
    ensures Accepted(Encoded(fingerprint, names)) == None
  {
    TwoLabelsBytes(SMALL_STROKE_A, n);
    TooWide(names, TwoLabels(SMALL_STROKE_A, n));
    RefusedIfNotShort(names, fingerprint);
  }
}
