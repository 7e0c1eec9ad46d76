/** The pre-compiled blocklist artifact: a fixed header, then the sorted names, each with its length.
    Decoding replays the names through the ordinary insert path and checks the fingerprint. */
module Artifact {
  import opened Sequences
  import opened Bytes
  import opened Names
  import opened Blocklist
  import opened Install
  import Trie
  import Digest
  import Utf8

  const MAGIC: seq<byte> := [0x54, 0x42, 0x4C, 0x4B]
  const VERSION: nat := 1
  const HASH_ALGO: byte := 0
  const HEADER_LEN: nat := 20
  const MAX_NAME_LEN: nat := 253

  // ---- Emission order ----

  ghost predicate Sorted(names: seq<string>) {
    forall i, j :: 0 <= i < j < |names| ==> NameLe(names[i], names[j])
  }

  function InsertSorted(x: string, names: seq<string>): seq<string> {
    if names == [] then [x]
    else if NameLe(x, names[0]) then [x] + names
    else [names[0]] + InsertSorted(x, names[1..])
  }

  function Sort(names: seq<string>): seq<string> {
    if names == [] then [] else InsertSorted(names[0], Sort(names[1..]))
  }

  lemma {:induction false} InsertSortedKeeps(x: string, names: seq<string>)
    ensures multiset(InsertSorted(x, names)) == multiset([x]) + multiset(names)
  {
    if names != [] && !NameLe(x, names[0]) {
      InsertSortedKeeps(x, names[1..]);
      assert names == [names[0]] + names[1..];
    } else if names != [] {
      assert multiset([x] + names) == multiset([x]) + multiset(names);
    }
  }

  lemma {:induction false} InsertSortedOrders(x: string, names: seq<string>)
    requires Sorted(names)
    ensures Sorted(InsertSorted(x, names))
  {
    if names != [] {
      NameLeTotal(x, names[0]);
      if NameLe(x, names[0]) {
        forall j | 0 <= j < |names| ensures NameLe(x, names[j]) {
          if j > 0 { NameLeTransitive(x, names[0], names[j]); }
        }
      } else {
        var rest := InsertSorted(x, names[1..]);
        InsertSortedOrders(x, names[1..]);
        InsertSortedKeeps(x, names[1..]);
        forall j | 0 <= j < |rest| ensures NameLe(names[0], rest[j]) {
          assert rest[j] in multiset(rest);
          assert rest[j] == x || rest[j] in names[1..];
        }
      }
    }
  }

  lemma {:induction false} SortSorts(names: seq<string>)
    ensures multiset(Sort(names)) == multiset(names) && Sorted(Sort(names))
  {
    if names != [] {
      SortSorts(names[1..]);
      InsertSortedKeeps(names[0], Sort(names[1..]));
      InsertSortedOrders(names[0], Sort(names[1..]));
      assert names == [names[0]] + names[1..];
    }
  }

  lemma SortLists(names: seq<string>, whole: set<string>)
    requires Lists(names, whole)
    ensures Lists(Sort(names), whole)
  {
    SortSorts(names);
    var s := Sort(names);
    forall n ensures n in s <==> n in whole {
      assert n in s <==> n in multiset(s);
      assert n in names <==> n in multiset(names);
    }
    ListsMultiset(names, whole);
    forall i, j | 0 <= i < j < |s| ensures s[i] != s[j] {
      if s[i] == s[j] {
        TwiceInMultiset(s, i, j);
        assert false;
      }
    }
  }

  lemma TwiceInMultiset(s: seq<string>, i: nat, j: nat)
    requires i < j < |s| && s[i] == s[j]
    ensures multiset(s)[s[i]] >= 2
  {
    assert s == s[..i] + [s[i]] + s[i + 1..j] + [s[j]] + s[j + 1..];
  }

  lemma {:induction false} ListsMultiset(names: seq<string>, whole: set<string>)
    requires Lists(names, whole)
    ensures forall n :: multiset(names)[n] <= 1
  {
    if names != [] {
      var k := |names| - 1;
      var rest := whole - {names[k]};
      forall x ensures x in names[..k] <==> x in rest {
        if x in rest { assert x in names; }
      }
      ListsMultiset(names[..k], rest);
      assert names == names[..k] + [names[k]];
      assert names[k] !in names[..k];
      assert multiset(names[..k])[names[k]] == 0;
    }
  }

  /** A set has one sorted listing. */
  lemma {:induction false} SortedUnique(a: seq<string>, b: seq<string>, whole: set<string>)
    requires Sorted(a) && Sorted(b) && Lists(a, whole) && Lists(b, whole)
    ensures a == b
    decreases |a|
  {
    ListsSize(a, whole);
    ListsSize(b, whole);
    if a != [] {
      assert a[0] in a && a[0] in b && b != [] && b[0] in b && b[0] in a;
      var i :| 0 <= i < |b| && b[i] == a[0];
      var j :| 0 <= j < |a| && a[j] == b[0];
      assert NameLe(b[0], a[0]) by { if i == 0 { NameLeTotal(a[0], a[0]); } }
      assert NameLe(a[0], b[0]) by { if j == 0 { NameLeTotal(a[0], a[0]); } }
      NameLeTotal(a[0], b[0]);
      TailLists(a, whole);
      TailLists(b, whole);
      SortedUnique(a[1..], b[1..], whole - {a[0]});
      assert a == [a[0]] + a[1..] && b == [b[0]] + b[1..];
    }
  }

  lemma TailLists(a: seq<string>, whole: set<string>)
    requires a != [] && Lists(a, whole)
    ensures Lists(a[1..], whole - {a[0]})
  {
    forall x ensures x in a[1..] <==> x in whole - {a[0]} {
      if x in whole - {a[0]} {
        assert x in a;
        var i :| 0 <= i < |a| && a[i] == x;
        assert a[1..][i - 1] == x;
      }
      if x in a[1..] {
        var i :| 0 <= i < |a[1..]| && a[1..][i] == x;
        assert a[i + 1] == x && a[i + 1] in a;
      }
    }
  }

  // ---- The format ----

  /** One record: the byte length, truncated to 16 bits, then the bytes. */
  function Record(name: string): seq<byte> {
    LE(|Utf8.Encode(name)|, 2) + Utf8.Encode(name)
  }

  function Records(names: seq<string>): seq<byte> {
    if names == [] then [] else Record(names[0]) + Records(names[1..])
  }

  /** Magic, version, algorithm, flags, fingerprint, and the count truncated to 32 bits. */
  function Header(fingerprint: nat, count: nat): (r: seq<byte>)
    ensures |r| == HEADER_LEN
  {
    MAGIC + LE(VERSION, 2) + [HASH_ALGO] + [0] + LE(fingerprint, 8) + LE(count, 4)
  }

  function Encoded(fingerprint: nat, names: seq<string>): seq<byte> {
    Header(fingerprint, |names|) + Records(names)
  }

  /** The header is well formed; flags and algorithm are fixed. */
  predicate HeaderOk(b: seq<byte>) {
    && |b| >= HEADER_LEN && b[..4] == MAGIC && FromLE(b[4..6]) == VERSION
    && b[6] == HASH_ALGO && b[7] == 0
  }

  /** The bytes of the record at `pos`, and the position after it. */
  function ReadBytes(b: seq<byte>, pos: nat): (r: Option<(seq<byte>, nat)>)
    ensures r.Some? ==> pos < r.value.1 <= |b|
  {
    if pos + 2 > |b| then None
    else
      var len := FromLE(b[pos..pos + 2]);
      if len > MAX_NAME_LEN || pos + 2 + len > |b| then None
      else Some((b[pos + 2..pos + 2 + len], pos + 2 + len))
  }

  /** Read one record at `pos`: the name and the position after it. */
  function ReadRecord(b: seq<byte>, pos: nat): (r: Option<(string, nat)>)
    ensures r.Some? ==> pos < r.value.1 <= |b|
  {
    var raw := ReadBytes(b, pos);
    if raw.None? then None
    else
      var name := Utf8.Decode(raw.value.0);
      if name.None? then None else Some((name.value, raw.value.1))
  }

  /** Read `n` records from `pos` on. */
  function ReadRecords(b: seq<byte>, pos: nat, n: nat): Option<seq<string>>
    decreases n
  {
    if n == 0 then Some([])
    else
      var first := ReadRecord(b, pos);
      if first.None? then None
      else
        var rest := ReadRecords(b, first.value.1, n - 1);
        if rest.None? then None else Some([first.value.0] + rest.value)
  }

  /** The trie an artifact decodes to, if it is accepted. */
  ghost function Accepted(b: seq<byte>): Option<Node> {
    if !HeaderOk(b) then None
    else
      var names := ReadRecords(b, HEADER_LEN, FromLE(b[16..20]));
      if names.None? then None
      else
        var t := Replay(Trie.Empty, names.value);
        if Digest.Fingerprint(BlockedNames(t)) != FromLE(b[8..16]) then None else Some(t)
  }

  /** The sorted listing of the blocked set. */
  ghost predicate Emits(names: seq<string>, t: Node) { Sorted(names) && Lists(names, BlockedNames(t)) }

  method ToArtifact(m: Matcher) returns (out: seq<byte>)
    requires m.Valid()
    ensures exists names :: Emits(names, m.root) && out == Encoded(m.fingerprint, names)
  {
    WalkableRoot(m.root);
    var domains := WalkTerminals(m.root, "", []);
    SortLists(domains, BlockedNames(m.root));
    SortSorts(domains);
    domains := Sort(domains);
    assert Emits(domains, m.root);
    out := Header(m.fingerprint, |domains|);
    for i := 0 to |domains|
      invariant out + Records(domains[i..]) == Encoded(m.fingerprint, domains)
    {
      assert domains[i..][1..] == domains[i + 1..];
      ghost var before := out;
      out := out + Record(domains[i]);
      assert before + (Record(domains[i]) + Records(domains[i + 1..])) == out + Records(domains[i + 1..]);
    }
  }

  /** The decoding loop: read `count` records, inserting each name as it comes. */
  method ReplayRecords(b: seq<byte>, count: nat, matcher: Matcher) returns (ok: bool)
    requires matcher.Valid() && matcher.root == Trie.Empty
    modifies matcher`root
    ensures matcher.Valid() && (ok <==> ReadRecords(b, HEADER_LEN, count).Some?)
    ensures ok ==> matcher.root == Replay(Trie.Empty, ReadRecords(b, HEADER_LEN, count).value)
  {
    var pos := HEADER_LEN;
    ghost var whole := ReadRecords(b, HEADER_LEN, count);
    ghost var read: seq<string> := [];
    StartReading(whole);
    for i := 0 to count
      invariant matcher.Valid() && matcher.root == Replay(Trie.Empty, read)
      invariant Continues(whole, read, ReadRecords(b, pos, count - i))
    {
      var record := ReadRecord(b, pos);
      if record.None? { return false; }
      matcher.Insert(record.value.0);
      ContinueWith(whole, read, record.value.0, ReadRecords(b, record.value.1, count - i - 1));
      ReplaySnoc(read, record.value.0);
      read := read + [record.value.0];
      pos := record.value.1;
    }
    assert read + [] == read;
    ok := true;
  }

  /** Decode, replay, finalize and compare fingerprints. */
  method FromArtifact(b: seq<byte>) returns (m: Matcher?)
    ensures m == null <==> Accepted(b).None?
    ensures m != null ==> fresh(m) && m.Valid() && m.Finalized()
    ensures m != null ==> m.root == Accepted(b).value && m.fingerprint == FromLE(b[8..16])
  {
    if !HeaderOk(b) { return null; }
    var matcher := new Matcher();
    var ok := ReplayRecords(b, FromLE(b[16..20]), matcher);
    if !ok { return null; }
    matcher.Finalize();
    if matcher.fingerprint != FromLE(b[8..16]) { return null; }
    m := matcher;
  }

  lemma EmptyIsRoot()
    ensures ValidRoot(Trie.Empty)
  {
    Trie.EmptyTerminals(Trie.Empty);
  }

  lemma ReplaySnoc(read: seq<string>, name: string)
    ensures Replay(Trie.Empty, read + [name]) == InsertName(Replay(Trie.Empty, read), name, {})
  {
    assert (read + [name])[..|read|] == read;
  }

  /** The whole reading is what was read so far, then the rest. */
  ghost predicate Continues(whole: Option<seq<string>>, read: seq<string>, rest: Option<seq<string>>) {
    if rest.None? then whole.None? else whole == Some(read + rest.value)
  }

  lemma StartReading(whole: Option<seq<string>>)
    ensures Continues(whole, [], whole)
  {
    if whole.Some? { assert [] + whole.value == whole.value; }
  }

  lemma ContinueWith(whole: Option<seq<string>>, read: seq<string>, name: string, rest: Option<seq<string>>)
    requires Continues(whole, read, if rest.None? then None else Some([name] + rest.value))
    ensures Continues(whole, read + [name], rest)
  {
    if rest.Some? { assert read + ([name] + rest.value) == read + [name] + rest.value; }
  }

  // ---- Round trip ----

  ghost predicate Short(names: seq<string>) {
    forall i :: 0 <= i < |names| ==> |Utf8.Encode(names[i])| <= MAX_NAME_LEN
  }

  lemma ShortCons(names: seq<string>)
    requires names != []
    ensures Short(names) <==> |Utf8.Encode(names[0])| <= MAX_NAME_LEN && Short(names[1..])
  {
    if |Utf8.Encode(names[0])| <= MAX_NAME_LEN && Short(names[1..]) {
      forall i | 0 <= i < |names| ensures |Utf8.Encode(names[i])| <= MAX_NAME_LEN {
        if i > 0 { assert names[i] == names[1..][i - 1]; }
      }
    }
    if Short(names) {
      forall i | 0 <= i < |names[1..]| ensures |Utf8.Encode(names[1..][i])| <= MAX_NAME_LEN {
        assert names[1..][i] == names[i + 1];
      }
    }
  }

  lemma HeaderFields(fingerprint: Digest.u64, count: nat, tail: seq<byte>)
    requires count < 0x1_0000_0000
    ensures var b := Header(fingerprint, count) + tail;
            HeaderOk(b) && FromLE(b[8..16]) == fingerprint && FromLE(b[16..20]) == count
  {
    var b := Header(fingerprint, count) + tail;
    assert b[..4] == MAGIC;
    assert b[4..6] == LE(VERSION, 2);
    assert b[8..16] == LE(fingerprint, 8);
    assert b[16..20] == LE(count, 4);
    assert Pow256(1) == 0x100 && Pow256(2) == 0x1_0000 && Pow256(3) == 0x100_0000 && Pow256(4) == 0x1_0000_0000;
    assert Pow256(5) == 0x100_0000_0000 && Pow256(6) == 0x1_0000_0000_0000;
    assert Pow256(7) == 0x100_0000_0000_0000 && Pow256(8) == Digest.U64;
    FromLEOfLE(VERSION, 2);
    FromLEOfLE(fingerprint, 8);
    FromLEOfLE(count, 4);
  }

  lemma RecordSlices<T>(b: seq<T>, pre: seq<T>, len: seq<T>, e: seq<T>, post: seq<T>)
    requires b == pre + (len + e + post) && |len| == 2
    ensures |pre| + 2 + |e| <= |b| && b == pre + (len + e) + post
    ensures b[|pre|..|pre| + 2] == len
    ensures b[|pre| + 2..|pre| + 2 + |e|] == e
  {}

  lemma LengthReads(n: nat)
    requires n < 0x1_0000
    ensures FromLE(LE(n, 2)) == n
  {
    assert Pow256(2) == 0x1_0000;
    FromLEOfLE(n, 2);
  }

  lemma ReadBytesAt(b: seq<byte>, pos: nat, e: seq<byte>)
    requires pos + 2 + |e| <= |b| && FromLE(b[pos..pos + 2]) == |e|
    requires b[pos + 2..pos + 2 + |e|] == e
    ensures ReadBytes(b, pos) == if |e| <= MAX_NAME_LEN then Some((e, pos + 2 + |e|)) else None
  {}

  lemma DecodeRead(b: seq<byte>, pos: nat, name: string, next: nat)
    requires ReadBytes(b, pos) == Some((Utf8.Encode(name), next))
    ensures ReadRecord(b, pos) == Some((name, next))
  {
    Utf8.DecodeEncode(name);
  }

  lemma ReadOneMore(b: seq<byte>, pos: nat, next: nat, name: string, rest: seq<string>)
    requires ReadRecord(b, pos) == Some((name, next))
    ensures ReadRecords(b, next, |rest|) == Some(rest) ==> ReadRecords(b, pos, |rest| + 1) == Some([name] + rest)
    ensures ReadRecords(b, next, |rest|) == None ==> ReadRecords(b, pos, |rest| + 1) == None
  {}

  ghost predicate Representable(names: seq<string>) {
    forall i :: 0 <= i < |names| ==> |Utf8.Encode(names[i])| < 0x1_0000
  }

  lemma RepresentableCons(names: seq<string>)
    requires names != [] && Representable(names)
    ensures |Utf8.Encode(names[0])| < 0x1_0000 && Representable(names[1..])
  {
    forall i | 0 <= i < |names[1..]| ensures |Utf8.Encode(names[1..][i])| < 0x1_0000 {
      assert names[1..][i] == names[i + 1];
    }
  }

  lemma ReadWrittenBytes(b: seq<byte>, pre: seq<byte>, len: seq<byte>, e: seq<byte>, post: seq<byte>)
    requires b == pre + (len + e + post) && |len| == 2 && FromLE(len) == |e|
    ensures ReadBytes(b, |pre|) == if |e| <= MAX_NAME_LEN then Some((e, |pre| + 2 + |e|)) else None
    ensures b == pre + (len + e) + post
  {
    RecordSlices(b, pre, len, e, post);
    ReadBytesAt(b, |pre|, e);
  }

  /** Reading a record where one was written. */
  lemma ReadWritten(b: seq<byte>, pre: seq<byte>, name: string, post: seq<byte>)
    requires b == pre + (Record(name) + post) && |Utf8.Encode(name)| < 0x1_0000
    ensures b == pre + Record(name) + post
    ensures ReadRecord(b, |pre|) ==
            if |Utf8.Encode(name)| <= MAX_NAME_LEN then Some((name, |pre + Record(name)|)) else None
  {
    var e := Utf8.Encode(name);
    LengthReads(|e|);
    ReadWrittenBytes(b, pre, LE(|e|, 2), e, post);
    if |e| <= MAX_NAME_LEN { DecodeRead(b, |pre|, name, |pre| + 2 + |e|); }
  }

  /** What reading back these names should give. */
  ghost function ReadBackAs(names: seq<string>): Option<seq<string>> { if Short(names) then Some(names) else None }

  lemma ReadBackOneMore(b: seq<byte>, pos: nat, next: nat, names: seq<string>)
    requires names != [] && |Utf8.Encode(names[0])| <= MAX_NAME_LEN && ReadRecord(b, pos) == Some((names[0], next))
    requires ReadRecords(b, next, |names[1..]|) == ReadBackAs(names[1..])
    ensures ReadRecords(b, pos, |names|) == ReadBackAs(names)
  {
    ShortCons(names);
    ReadOneMore(b, pos, next, names[0], names[1..]);
    assert names == [names[0]] + names[1..];
  }

  lemma ReadBackSpoilt(b: seq<byte>, pos: nat, names: seq<string>)
    requires names != [] && |Utf8.Encode(names[0])| > MAX_NAME_LEN && ReadRecord(b, pos) == None
    ensures ReadRecords(b, pos, |names|) == ReadBackAs(names)
  {
    ShortCons(names);
  }

  /** The records are read back exactly, whatever follows them; a single over-long name spoils them all. */
  lemma {:induction false} ReadBackRecords(b: seq<byte>, pre: seq<byte>, names: seq<string>, post: seq<byte>)
    requires b == pre + (Records(names) + post) && Representable(names)
    ensures ReadRecords(b, |pre|, |names|) == ReadBackAs(names)
    decreases |names|
  {
    if names != [] {
      var rest := Records(names[1..]) + post;
      RepresentableCons(names);
      Regroup(Record(names[0]), Records(names[1..]), post);
      ReadWritten(b, pre, names[0], rest);
      if |Utf8.Encode(names[0])| <= MAX_NAME_LEN {
        Regroup(pre, Record(names[0]), rest);
        ReadBackRecords(b, pre + Record(names[0]), names[1..], post);
        ReadBackOneMore(b, |pre|, |pre + Record(names[0])|, names);
      } else {
        ReadBackSpoilt(b, |pre|, names);
      }
    }
  }

  lemma ReadBackEncoded(fingerprint: Digest.u64, names: seq<string>, tail: seq<byte>)
    requires |names| < 0x1_0000_0000 && Representable(names)
    ensures var b := Encoded(fingerprint, names) + tail;
            && HeaderOk(b) && FromLE(b[8..16]) == fingerprint && FromLE(b[16..20]) == |names|
            && ReadRecords(b, HEADER_LEN, |names|) == ReadBackAs(names)
  {
    Regroup(Header(fingerprint, |names|), Records(names), tail);
    HeaderFields(fingerprint, |names|, Records(names) + tail);
    ReadBackRecords(Encoded(fingerprint, names) + tail, Header(fingerprint, |names|), names, tail);
  }

  /** Replaying the names of a trie whose names read back as themselves rebuilds it. */
  lemma ReplayRebuilds(t: Node, names: seq<string>)
    requires ValidRoot(t) && AllSelfNormal(t) && Lists(names, BlockedNames(t))
    ensures Trie.Terminals(Replay(Trie.Empty, names)) == Trie.Terminals(t)
    ensures Trie.Erase(Replay(Trie.Empty, names)) == Trie.Erase(t)
    ensures BlockedNames(Replay(Trie.Empty, names)) == BlockedNames(t)
  {
    EmptyIsRoot();
    Trie.EmptyTerminals(Trie.Empty);
    MergedTerminals(Trie.Empty, t, names);
    SelfNormalReadsBack(t);
    Trie.RootIsMinimal(t);
    assert Trie.Terminals(Trie.Empty) + Trie.Terminals(t) == Trie.Terminals(t);
    ReplayByCovers(InsertPath, Trie.Empty, names);
    Trie.TerminalsDetermine(Replay(Trie.Empty, names), t);
  }

  /** A finalized matcher with fewer than 2^32 names, each reading back as itself and encoding to
      fewer than 2^16 bytes, survives the round trip (same set, same trie, same fingerprint) if and
      only if every name fits in 253 bytes. */
  lemma RoundTrip(t: Node, names: seq<string>)
    requires ValidRoot(t) && AllSelfNormal(t) && Lists(names, BlockedNames(t))
    requires |names| < 0x1_0000_0000 && Representable(names)
    ensures var r := Accepted(Encoded(Digest.Fingerprint(BlockedNames(t)), names));
            && (r.Some? <==> Short(names))
            && (r.Some? ==> Trie.Terminals(r.value) == Trie.Terminals(t) && Trie.Erase(r.value) == Trie.Erase(t))
  {
    var fp := Digest.Fingerprint(BlockedNames(t));
    ReadBackEncoded(fp, names, []);
    assert Encoded(fp, names) + [] == Encoded(fp, names);
    if Short(names) { ReplayRebuilds(t, names); }
  }

  // ---- What is accepted, exactly ----

  lemma BytesRead(b: seq<byte>, pos: nat, raw: seq<byte>, next: nat)
    requires ReadBytes(b, pos) == Some((raw, next))
    ensures pos <= next <= |b| && b[pos..next] == LE(|raw|, 2) + raw && |raw| <= MAX_NAME_LEN
  {
    var len := b[pos..pos + 2];
    LEOfFromLE(len);
    SplitSlice(b, pos, pos + 2, next);
  }

  /** What a record was read from is that record. */
  lemma RecordRead(b: seq<byte>, pos: nat, name: string, next: nat)
    requires ReadRecord(b, pos) == Some((name, next))
    ensures pos <= next <= |b| && b[pos..next] == Record(name) && |Utf8.Encode(name)| <= MAX_NAME_LEN
  {
    var raw := ReadBytes(b, pos).value.0;
    Utf8.EncodeDecode(raw);
    BytesRead(b, pos, raw, next);
  }

  lemma RecordsMore(b: seq<byte>, pos: nat, next: nat, end: nat, names: seq<string>)
    requires names != [] && pos <= next <= end <= |b| && b[pos..next] == Record(names[0])
    requires b[next..end] == Records(names[1..])
    ensures b[pos..end] == Records(names)
  {
    assert b[pos..end] == b[pos..next] + b[next..end];
  }

  lemma {:induction false} RecordsRead(b: seq<byte>, pos: nat, n: nat, names: seq<string>) returns (end: nat)
    requires pos <= |b| && ReadRecords(b, pos, n) == Some(names)
    ensures |names| == n && Short(names) && pos <= end <= |b| && b[pos..end] == Records(names)
    decreases n
  {
    if n == 0 {
      end := pos;
    } else {
      var first := ReadRecord(b, pos).value;
      var rest := ReadRecords(b, first.1, n - 1).value;
      assert names == [first.0] + rest && names[1..] == rest;
      RecordRead(b, pos, first.0, first.1);
      end := RecordsRead(b, first.1, n - 1, rest);
      ShortCons(names);
      RecordsMore(b, pos, first.1, end, names);
    }
  }

  lemma HeaderRead(b: seq<byte>)
    requires HeaderOk(b)
    ensures b[..HEADER_LEN] == Header(FromLE(b[8..16]), FromLE(b[16..20])) && FromLE(b[16..20]) < 0x1_0000_0000
    ensures FromLE(b[8..16]) < Digest.U64
  {
    LEOfFromLE(b[4..6]);
    LEOfFromLE(b[8..16]);
    LEOfFromLE(b[16..20]);
    FromLEBound(b[8..16]);
    FromLEBound(b[16..20]);
    FourAndEight();
    assert b[..20] == b[..4] + b[4..6] + [b[6]] + [b[7]] + b[8..16] + b[16..20];
  }

  lemma FourAndEight()
    ensures Pow256(4) == 0x1_0000_0000 && Pow256(8) == Digest.U64
  {
    assert Pow256(1) == 0x100 && Pow256(2) == 0x1_0000 && Pow256(3) == 0x100_0000 && Pow256(4) == 0x1_0000_0000;
    assert Pow256(5) == 0x100_0000_0000 && Pow256(6) == 0x1_0000_0000_0000;
    assert Pow256(7) == 0x100_0000_0000_0000;
  }

  /** The header byte by byte: magic, version, algorithm, flags, then fingerprint and count, least
      significant byte first. */
  lemma HeaderLayout(fingerprint: nat, count: nat, i: nat)
    ensures Header(fingerprint, count)[..8] == [0x54, 0x42, 0x4C, 0x4B, 1, 0, 0, 0]
    ensures i < 8 ==> Header(fingerprint, count)[8 + i] == Shr(fingerprint, i) % 256
    ensures i < 4 ==> Header(fingerprint, count)[16 + i] == Shr(count, i) % 256
  {
    LEAt(VERSION, 2, 0);
    LEAt(VERSION, 2, 1);
    if i < 8 { LEAt(fingerprint, 8, i); }
    if i < 4 { LEAt(count, 4, i); }
  }

  /** The bytes are an artifact of these names, and whatever follows. */
  ghost predicate ArtifactOf(b: seq<byte>, names: seq<string>, tail: seq<byte>, t: Node) {
    && |names| < 0x1_0000_0000 && Short(names) && t == Replay(Trie.Empty, names)
    && b == Encoded(Digest.Fingerprint(BlockedNames(t)), names) + tail
  }

  lemma ShortIsRepresentable(names: seq<string>)
    requires Short(names)
    ensures Representable(names)
  {
    forall i | 0 <= i < |names| ensures |Utf8.Encode(names[i])| < 0x1_0000 { assert |Utf8.Encode(names[i])| <= MAX_NAME_LEN; }
  }

  lemma ArtifactAccepted(b: seq<byte>, names: seq<string>, tail: seq<byte>, t: Node)
    requires ArtifactOf(b, names, tail, t)
    ensures Accepted(b) == Some(t)
  {
    ShortIsRepresentable(names);
    ReadBackEncoded(Digest.Fingerprint(BlockedNames(t)), names, tail);
  }

  lemma ThreeParts(b: seq<byte>, head: seq<byte>, records: seq<byte>, end: nat)
    requires HEADER_LEN <= end <= |b| && b[..HEADER_LEN] == head && b[HEADER_LEN..end] == records
    ensures b == head + records + b[end..]
  {}

  /** The header and the records, as they were read. */
  lemma PartsRead(b: seq<byte>, names: seq<string>) returns (tail: seq<byte>)
    requires HeaderOk(b) && ReadRecords(b, HEADER_LEN, FromLE(b[16..20])) == Some(names)
    ensures |names| < 0x1_0000_0000 && Short(names) && b == Encoded(FromLE(b[8..16]), names) + tail
  {
    HeaderRead(b);
    var end := RecordsRead(b, HEADER_LEN, FromLE(b[16..20]), names);
    ThreeParts(b, Header(FromLE(b[8..16]), |names|), Records(names), end);
    tail := b[end..];
  }

  lemma AcceptedIsArtifact(b: seq<byte>, t: Node) returns (names: seq<string>, tail: seq<byte>)
    requires Accepted(b) == Some(t)
    ensures ArtifactOf(b, names, tail, t)
  {
    names := ReadRecords(b, HEADER_LEN, FromLE(b[16..20])).value;
    tail := PartsRead(b, names);
  }

  /** Bytes are accepted, as the trie `t`, if and only if they are a header for the names of a list, each of
      at most 253 bytes, those names with their lengths, and anything at all; the list builds `t`, and the
      header carries the fingerprint of what it blocks. */
  lemma AcceptedExactly(b: seq<byte>, t: Node)
    ensures Accepted(b) == Some(t) <==> exists names, tail :: ArtifactOf(b, names, tail, t)
  {
    if Accepted(b) == Some(t) { var names, tail := AcceptedIsArtifact(b, t); }
    if names, tail :| ArtifactOf(b, names, tail, t) { ArtifactAccepted(b, names, tail, t); }
  }

  /** The bytes are a function of the blocked set: equal sets give identical artifacts. */
  lemma ArtifactIsCanonical(s: Node, t: Node, a: seq<string>, b: seq<string>)
    requires BlockedNames(s) == BlockedNames(t)
    requires Sorted(a) && Sorted(b) && Lists(a, BlockedNames(s)) && Lists(b, BlockedNames(t))
    ensures Encoded(Digest.Fingerprint(BlockedNames(s)), a) == Encoded(Digest.Fingerprint(BlockedNames(t)), b)
  {
    SortedUnique(a, b, BlockedNames(s));
  }
}
