/** Rewriting the answer section: drop record types, or reduce an ANY reply to its headline types (section
    4.1 of RFC 8482). What is kept keeps its fields and data bytes; names inside the data are kept when
    they do not lead into the answers. */
module DnsFilter {
  import opened Sequences
  import opened Bytes
  import opened DnsName
  import opened DnsMessage
  import opened DnsBuild

  /** The types an ANY reply keeps: A, AAAA, MX, CNAME. */
  const DEFANG_KEEP: seq<u16> := [TYPE_A, TYPE_AAAA, 15, 5]

  predicate Keep(rec: Rec, drop: seq<u16>, defang: bool) {
    rec.rclass != CLASS_IN || ((defang ==> rec.rtype in DEFANG_KEEP) && rec.rtype !in drop)
  }

  function Kept(recs: seq<Rec>, drop: seq<u16>, defang: bool): (r: seq<Rec>)
    ensures |r| <= |recs|
  {
    if recs == [] then []
    else (if Keep(recs[0], drop, defang) then [recs[0]] else []) + Kept(recs[1..], drop, defang)
  }

  /** The data of a record of this buffer. */
  function Data(buf: Message, rec: Rec): seq<byte> {
    if rec.rdataAt + rec.rdlength <= |buf| then buf[rec.rdataAt..rec.rdataAt + rec.rdlength] else []
  }

  /** The record written out with its owner name uncompressed. */
  function Rewritten(buf: Message, rec: Rec): seq<byte> {
    WireName(rec.name) + (Fixed(rec.rtype, rec.rclass, rec.ttl, rec.rdlength) + Data(buf, rec))
  }

  function Emit(buf: Message, recs: seq<Rec>): seq<byte> {
    if recs == [] then [] else Rewritten(buf, recs[0]) + Emit(buf, recs[1..])
  }

  /** The rewritten message: header and question with the new count, the kept answers, and the rest as it
      was. */
  function Rebuilt(buf: Message, qend: nat, kept: seq<Rec>, anEnd: nat): Message
    requires HEADER_LEN <= qend <= |buf| && anEnd <= |buf|
  {
    WithCount(buf[..qend] + Emit(buf, kept), |kept|) + buf[anEnd..]
  }

  function FilterWire(response: Message, drop: seq<u16>, anyDefang: bool, isAny: bool): Option<Message> {
    var p := ParseQuestion(response);
    if p.NoQuestion? || U16(response, 4) != 1 then None
    else
      var an := Skim(response, p.qend, U16(response, 6));
      if an.NoRecs? then None
      else if drop == [] && !(anyDefang && isAny) then Some(response)
      else
        SkimInside(response, p.qend, U16(response, 6));
        Some(Rebuilt(response, p.qend, Kept(an.recs, drop, anyDefang && isAny), an.next))
  }

  /** A record found in a buffer: its name is one that can be read, its data lies inside. */
  ghost predicate Sane(buf: Message, rec: Rec) {
    && Lower(rec.name) == rec.name && |rec.name| <= MAX_NAME_LEN && ShortSegments(rec.name)
    && rec.rdataAt + rec.rdlength <= |buf|
  }

  ghost predicate AllSane(buf: Message, recs: seq<Rec>) {
    forall i :: 0 <= i < |recs| ==> Sane(buf, recs[i])
  }

  lemma RecordSane(buf: Message, pos: nat)
    requires RecordAt(buf, pos).OneRec?
    ensures Sane(buf, RecordAt(buf, pos).rec) && pos <= RecordAt(buf, pos).next <= |buf|
  {
    ReadNameBounds(buf, pos);
    ReadNameShort(buf, pos);
  }

  ghost predicate FindsSane(one: nat -> OneRec, buf: Message) {
    forall p: nat :: one(p).OneRec? ==> Sane(buf, one(p).rec) && p <= one(p).next <= |buf|
  }

  lemma FinderSane(buf: Message)
    ensures FindsSane(Finder(buf), buf)
  {
    forall p: nat | Finder(buf)(p).OneRec?
      ensures Sane(buf, Finder(buf)(p).rec) && p <= Finder(buf)(p).next <= |buf|
    {
      RecordSane(buf, p);
    }
  }

  lemma {:induction false} SkimSane(one: nat -> OneRec, buf: Message, pos: nat, count: nat)
    requires FindsSane(one, buf) && pos <= |buf|
    ensures var r := SkimBy(one, pos, count); r.Recs? ==> AllSane(buf, r.recs) && pos <= r.next <= |buf|
    decreases count
  {
    if count > 0 && one(pos).OneRec? {
      SkimSane(one, buf, one(pos).next, count - 1);
    }
  }

  lemma SkimInside(buf: Message, pos: nat, count: nat)
    requires pos <= |buf|
    ensures var r := Skim(buf, pos, count); r.Recs? ==> AllSane(buf, r.recs) && pos <= r.next <= |buf|
  {
    FinderSane(buf);
    SkimSane(Finder(buf), buf, pos, count);
  }

  /** The rewriting loop. */
  method EmitKept(response: Message, answers: seq<Rec>, drop: seq<u16>, defang: bool, prefix: seq<byte>)
    returns (rebuilt: seq<byte>, count: nat)
    ensures rebuilt == prefix + Emit(response, Kept(answers, drop, defang)) && count == |Kept(answers, drop, defang)|
  {
    rebuilt, count := prefix, 0;
    ghost var whole := Kept(answers, drop, defang);
    assert answers[0..] == answers;
    for i := 0 to |answers|
      invariant rebuilt + Emit(response, Kept(answers[i..], drop, defang)) == prefix + Emit(response, whole)
      invariant count + |Kept(answers[i..], drop, defang)| == |whole|
    {
      var rec := answers[i];
      ghost var rest := Kept(answers[i + 1..], drop, defang);
      assert answers[i..][1..] == answers[i + 1..];
      if Keep(rec, drop, defang) {
        EmitOne(response, rec, rest);
        Regroup(rebuilt, Rewritten(response, rec), Emit(response, rest));
        var named := WriteName(rebuilt, rec.name);
        Regroup(rebuilt, WireName(rec.name), Fixed(rec.rtype, rec.rclass, rec.ttl, rec.rdlength) + Data(response, rec));
        rebuilt := named + (Fixed(rec.rtype, rec.rclass, rec.ttl, rec.rdlength) + Data(response, rec));
        count := count + 1;
      } else {
        assert [] + rest == rest;
      }
    }
    assert answers[|answers|..] == [] && rebuilt + [] == rebuilt;
  }

  lemma EmitOne(buf: Message, rec: Rec, rest: seq<Rec>)
    ensures Emit(buf, [rec] + rest) == Rewritten(buf, rec) + Emit(buf, rest)
  {
    assert ([rec] + rest)[1..] == rest;
  }

  method FilterRr(response: Message, drop: seq<u16>, anyDefang: bool, isAny: bool) returns (r: Option<Message>)
    ensures r == FilterWire(response, drop, anyDefang, isAny)
  {
    var p := ParseQuestion(response);
    if p.NoQuestion? || U16(response, 4) != 1 { return None; }
    var an := SkimRecords(response, p.qend, U16(response, 6));
    if an.NoRecs? { return None; }
    var defang := anyDefang && isAny;
    if drop == [] && !defang { return Some(response); }
    SkimInside(response, p.qend, U16(response, 6));
    var rebuilt, count := EmitKept(response, an.recs, drop, defang, response[..p.qend]);
    r := Some(WithCount(rebuilt, count) + response[an.next..]);
  }

  // ---- Reading the kept answers back ----

  lemma SentStaysLower(n: Name)
    requires Lower(n) == n && ShortSegments(n)
    ensures Lower(Sent(n)) == Sent(n)
  {
    SentExactly(n);
    var sent := Sent(n);
    forall i | 0 <= i < |sent| ensures LowerByte(sent[i]) == sent[i] {
      TidyMembers(n, DOT, sent[i]);
      if sent[i] != DOT {
        var j :| 0 <= j < |n| && n[j] == sent[i];
        assert Lower(n)[j] == LowerByte(n[j]);
      }
    }
  }

  /** A name written for a sane record is read back as what was sent. */
  lemma NameReadBack(buf: Message, pos: nat, n: Name)
    requires Lower(n) == n && |n| <= MAX_NAME_LEN && ShortSegments(n) && Holds(buf, pos, WireName(n))
    ensures ReadName(buf, pos) == Reading(Sent(n), pos + |WireName(n)|)
  {
    SentExactly(n);
    SentStaysLower(n);
    ReadWritten(buf, pos, n, MAX_POINTER_JUMPS);
  }

  /** Where a rewritten record is found: the name as sent, the same fields, the data in its new place. */
  function Placed(rec: Rec, pos: nat): Rec {
    rec.(name := Sent(rec.name), rdataAt := pos + |WireName(rec.name)| + 10)
  }

  function Width(rec: Rec): nat { |WireName(rec.name)| + 10 + rec.rdlength }

  function PlacedAll(recs: seq<Rec>, pos: nat): (r: seq<Rec>)
    ensures |r| == |recs|
    decreases |recs|
  {
    if recs == [] then [] else [Placed(recs[0], pos)] + PlacedAll(recs[1..], pos + Width(recs[0]))
  }

  lemma RewrittenFound(buf: Message, out: Message, pos: nat, rec: Rec, one: nat -> OneRec)
    requires Sane(buf, rec) && Holds(out, pos, Rewritten(buf, rec)) && Finds(one, out)
    ensures |Rewritten(buf, rec)| == Width(rec)
    ensures one(pos) == OneRec(Placed(rec, pos), pos + Width(rec))
    ensures Holds(out, Placed(rec, pos).rdataAt, Data(buf, rec))
  {
    var p, data := pos + |WireName(rec.name)|, Data(buf, rec);
    HoldsBoth(out, pos, WireName(rec.name), Fixed(rec.rtype, rec.rclass, rec.ttl, rec.rdlength) + data);
    NameReadBack(out, pos, rec.name);
    RecordFound(out, pos, Sent(rec.name), p, rec.rtype, rec.rclass, rec.ttl, data);
    assert one(pos) == RecordAt(out, pos);
  }

  lemma AllSaneTail(buf: Message, recs: seq<Rec>)
    requires recs != [] && AllSane(buf, recs)
    ensures Sane(buf, recs[0]) && AllSane(buf, recs[1..])
  {
    forall i | 0 <= i < |recs[1..]| ensures Sane(buf, recs[1..][i]) { assert recs[1..][i] == recs[i + 1]; }
  }

  /** The records stand in `out` from `pos` to `end`, each with its data. */
  ghost predicate Stand(one: nat -> OneRec, buf: Message, out: Message, pos: nat, recs: seq<Rec>, end: nat)
    decreases |recs|
  {
    if recs == [] then pos == end
    else
      && one(pos) == OneRec(Placed(recs[0], pos), pos + Width(recs[0]))
      && Holds(out, Placed(recs[0], pos).rdataAt, Data(buf, recs[0]))
      && Stand(one, buf, out, pos + Width(recs[0]), recs[1..], end)
  }

  lemma StandCons(one: nat -> OneRec, buf: Message, out: Message, pos: nat, recs: seq<Rec>, end: nat)
    requires recs != [] && one(pos) == OneRec(Placed(recs[0], pos), pos + Width(recs[0]))
    requires Holds(out, Placed(recs[0], pos).rdataAt, Data(buf, recs[0]))
    requires Stand(one, buf, out, pos + Width(recs[0]), recs[1..], end)
    ensures Stand(one, buf, out, pos, recs, end)
  {}

  /** `put` writes the records of this buffer. */
  ghost predicate Puts(put: Rec -> seq<byte>, buf: Message) {
    forall rec {:trigger Rewritten(buf, rec)} :: put(rec) == Rewritten(buf, rec)
  }

  ghost function EmitBy(put: Rec -> seq<byte>, recs: seq<Rec>): seq<byte> {
    if recs == [] then [] else put(recs[0]) + EmitBy(put, recs[1..])
  }

  lemma {:induction false} EmitIsBy(put: Rec -> seq<byte>, buf: Message, recs: seq<Rec>)
    requires Puts(put, buf)
    ensures Emit(buf, recs) == EmitBy(put, recs)
  {
    if recs != [] {
      EmitIsBy(put, buf, recs[1..]);
      assert put(recs[0]) == Rewritten(buf, recs[0]);
    }
  }

  lemma {:induction false} EmitStandsBy(buf: Message, out: Message, pos: nat, recs: seq<Rec>, one: nat -> OneRec,
                                        put: Rec -> seq<byte>)
    requires AllSane(buf, recs) && Puts(put, buf) && Holds(out, pos, EmitBy(put, recs)) && Finds(one, out)
    ensures Stand(one, buf, out, pos, recs, pos + |EmitBy(put, recs)|)
    decreases |recs|
  {
    if recs != [] {
      var end := pos + |EmitBy(put, recs)|;
      AllSaneTail(buf, recs);
      FirstStands(buf, out, pos, recs[0], EmitBy(put, recs[1..]), one, put);
      EmitStandsBy(buf, out, pos + Width(recs[0]), recs[1..], one, put);
      StandCons(one, buf, out, pos, recs, end);
    }
  }

  lemma EmitStands(buf: Message, out: Message, pos: nat, recs: seq<Rec>, one: nat -> OneRec)
    requires AllSane(buf, recs) && Holds(out, pos, Emit(buf, recs)) && Finds(one, out)
    ensures Stand(one, buf, out, pos, recs, pos + |Emit(buf, recs)|)
  {
    var put := (rec: Rec) => Rewritten(buf, rec);
    EmitIsBy(put, buf, recs);
    EmitStandsBy(buf, out, pos, recs, one, put);
  }

  lemma FirstStands(buf: Message, out: Message, pos: nat, rec: Rec, rest: seq<byte>, one: nat -> OneRec, put: Rec -> seq<byte>)
    requires Sane(buf, rec) && Puts(put, buf) && Holds(out, pos, put(rec) + rest) && Finds(one, out)
    ensures one(pos) == OneRec(Placed(rec, pos), pos + Width(rec)) && |put(rec)| == Width(rec)
    ensures Holds(out, Placed(rec, pos).rdataAt, Data(buf, rec)) && Holds(out, pos + Width(rec), rest)
  {
    assert put(rec) == Rewritten(buf, rec);
    HoldsBoth(out, pos, put(rec), rest);
    RewrittenFound(buf, out, pos, rec, one);
  }

  /** Records that stand are skimmed, in order. */
  lemma {:induction false} StandSkimmed(one: nat -> OneRec, buf: Message, out: Message, pos: nat, recs: seq<Rec>, end: nat)
    requires Stand(one, buf, out, pos, recs, end)
    ensures SkimBy(one, pos, |recs|) == Recs(PlacedAll(recs, pos), end)
    decreases |recs|
  {
    if recs != [] { StandSkimmed(one, buf, out, pos + Width(recs[0]), recs[1..], end); }
  }

  /** Each is the kept record, name as sent, with its data. */
  lemma {:induction false} StandHeld(one: nat -> OneRec, buf: Message, out: Message, pos: nat, recs: seq<Rec>, end: nat, i: nat)
    requires Stand(one, buf, out, pos, recs, end) && i < |recs|
    ensures var rec, got := recs[i], PlacedAll(recs, pos)[i];
            && got.name == Sent(rec.name) && got.rtype == rec.rtype && got.rclass == rec.rclass
            && got.ttl == rec.ttl && got.rdlength == rec.rdlength && Holds(out, got.rdataAt, Data(buf, rec))
    decreases |recs|
  {
    if i > 0 {
      StandHeld(one, buf, out, pos + Width(recs[0]), recs[1..], end, i - 1);
      assert recs[1..][i - 1] == recs[i];
    }
  }

  lemma {:induction false} KeptSane(buf: Message, recs: seq<Rec>, drop: seq<u16>, defang: bool)
    requires AllSane(buf, recs)
    ensures AllSane(buf, Kept(recs, drop, defang))
  {
    if recs != [] {
      AllSaneTail(buf, recs);
      KeptSane(buf, recs[1..], drop, defang);
    }
  }

  // ---- The sections behind the answers ----

  /** The names that can be moved, the stretch `lo..hi` being kept. */
  function Locals(buf: Message, lo: nat, hi: nat): nat -> bool { (pos: nat) => LocalName(buf, pos, lo, hi) }

  ghost predicate Tells(local: nat -> bool, buf: Message, lo: nat, hi: nat) {
    forall p: nat {:trigger LocalName(buf, p, lo, hi)} :: local(p) <==> LocalName(buf, p, lo, hi)
  }

  /** The owner names of a section are local. */
  ghost predicate LocalSection(one: nat -> OneRec, local: nat -> bool, pos: nat, count: nat)
    decreases count
  {
    count == 0 || (local(pos) && (one(pos).OneRec? ==> LocalSection(one, local, one(pos).next, count - 1)))
  }

  /** Two buffers end alike from these positions on, and share the stretch `lo..hi`. */
  ghost predicate Alike(a: Message, pa: nat, b: Message, pb: nat, lo: nat, hi: nat) {
    && pa <= |a| && pb <= |b| && |a| - pa == |b| - pb && Same(a, pa, b, pb, |a| - pa)
    && lo <= hi && Same(a, lo, b, lo, hi - lo)
  }

  lemma AlikeLater(a: Message, pa: nat, b: Message, pb: nat, lo: nat, hi: nat, k: nat)
    requires Alike(a, pa, b, pb, lo, hi) && pa + k <= |a|
    ensures Alike(a, pa + k, b, pb + k, lo, hi)
  {
    SamePart(a, pa, b, pb, |a| - pa, k, |a| - pa - k);
  }

  lemma NameMoves(a: Message, pa: nat, b: Message, pb: nat, lo: nat, hi: nat)
    requires Alike(a, pa, b, pb, lo, hi) && LocalName(a, pa, lo, hi)
    ensures MovedReading(ReadName(a, pa), pa, ReadName(b, pb), pb)
  {
    LocalNameMoves(a, pa, b, pb, |a| - pa, lo, hi);
  }

  /** The same record, its data in a new place. */
  function Shifted(rec: Rec, from: nat, to: nat): Rec
    requires rec.rdataAt >= from
  {
    rec.(rdataAt := rec.rdataAt - from + to)
  }

  lemma FieldsMove(a: Message, pa: nat, b: Message, pb: nat, lo: nat, hi: nat)
    requires Alike(a, pa, b, pb, lo, hi) && pa + 10 <= |a|
    ensures pb + 10 <= |b| && U16(a, pa) == U16(b, pb) && U16(a, pa + 2) == U16(b, pb + 2)
    ensures U32(a, pa + 4) == U32(b, pb + 4) && U16(a, pa + 8) == U16(b, pb + 8)
  {
    var n := |a| - pa;
    SameU16(a, pa, b, pb, n, 0);
    SameU16(a, pa, b, pb, n, 2);
    SameU16(a, pa, b, pb, n, 4);
    SameU16(a, pa, b, pb, n, 6);
    SameU16(a, pa, b, pb, n, 8);
  }

  lemma RecordFromMoves(a: Message, pa: nat, na: Reading, b: Message, pb: nat, nb: Reading, lo: nat, hi: nat)
    requires Alike(a, pa, b, pb, lo, hi) && MovedReading(na, pa, nb, pb) && na.Reading? && pa <= na.next <= |a|
    requires RecordFrom(a, na).OneRec?
    ensures var r := RecordFrom(a, na);
            && r.rec.rdataAt >= pa && pa <= r.next <= |a|
            && RecordFrom(b, nb) == OneRec(Shifted(r.rec, pa, pb), r.next - pa + pb)
  {
    var p := na.next;
    AlikeLater(a, pa, b, pb, lo, hi, p - pa);
    FieldsMove(a, p, b, p - pa + pb, lo, hi);
  }

  lemma RecordMoves(a: Message, pa: nat, b: Message, pb: nat, lo: nat, hi: nat)
    requires Alike(a, pa, b, pb, lo, hi) && LocalName(a, pa, lo, hi) && RecordAt(a, pa).OneRec?
    ensures var r := RecordAt(a, pa);
            && r.rec.rdataAt >= pa && pa <= r.next <= |a|
            && RecordAt(b, pb) == OneRec(Shifted(r.rec, pa, pb), r.next - pa + pb)
  {
    ReadNameBounds(a, pa);
    NameMoves(a, pa, b, pb, lo, hi);
    RecordFromMoves(a, pa, ReadName(a, pa), b, pb, ReadName(b, pb), lo, hi);
  }

  ghost predicate AllFrom(recs: seq<Rec>, from: nat) { forall i :: 0 <= i < |recs| ==> recs[i].rdataAt >= from }

  function ShiftedAll(recs: seq<Rec>, from: nat, to: nat): (r: seq<Rec>)
    requires AllFrom(recs, from)
    ensures |r| == |recs|
  {
    if recs == [] then [] else [Shifted(recs[0], from, to)] + ShiftedAll(recs[1..], from, to)
  }

  lemma {:induction false} ShiftedAt(recs: seq<Rec>, from: nat, to: nat, i: nat)
    requires AllFrom(recs, from) && i < |recs|
    ensures ShiftedAll(recs, from, to)[i] == Shifted(recs[i], from, to)
  {
    if i > 0 { ShiftedAt(recs[1..], from, to, i - 1); }
  }

  /** Records found alike at two places, the second `to - from` away. */
  ghost predicate MovesBy(oa: nat -> OneRec, ob: nat -> OneRec, pos: nat, from: nat, to: nat) {
    && pos >= from && oa(pos).OneRec? && oa(pos).rec.rdataAt >= from && oa(pos).next >= pos
    && ob(pos - from + to) == OneRec(Shifted(oa(pos).rec, from, to), oa(pos).next - from + to)
  }

  lemma MovesFrom(oa: nat -> OneRec, ob: nat -> OneRec, pa: nat, pb: nat, from: nat, to: nat, r: OneRec)
    requires from <= pa && pb == pa - from + to && oa(pa) == r && r.OneRec? && r.rec.rdataAt >= pa && r.next >= pa
    requires ob(pb) == OneRec(Shifted(r.rec, pa, pb), r.next - pa + pb)
    ensures MovesBy(oa, ob, pa, from, to)
  {}

  lemma RecordMovesBy(a: Message, pa: nat, b: Message, pb: nat, lo: nat, hi: nat, oa: nat -> OneRec, ob: nat -> OneRec,
                      local: nat -> bool, r: OneRec)
    requires Finds(oa, a) && Finds(ob, b) && Alike(a, pa, b, pb, lo, hi)
    requires Tells(local, a, lo, hi) && local(pa) && r == oa(pa) && r.OneRec?
    ensures r.rec.rdataAt >= pa && pa <= r.next <= |a|
    ensures ob(pb) == OneRec(Shifted(r.rec, pa, pb), r.next - pa + pb)
  {
    assert LocalName(a, pa, lo, hi);
    assert oa(pa) == RecordAt(a, pa);
    RecordMoves(a, pa, b, pb, lo, hi);
    assert ob(pb) == RecordAt(b, pb);
  }

  /** A whole section found alike at two places. */
  ghost predicate SectionBy(oa: nat -> OneRec, ob: nat -> OneRec, pos: nat, from: nat, to: nat, count: nat)
    decreases count
  {
    if count == 0 then pos >= from
    else MovesBy(oa, ob, pos, from, to) && SectionBy(oa, ob, oa(pos).next, from, to, count - 1)
  }

  /** A section of local names is found alike after the move. */
  lemma {:induction false} SectionMoves(a: Message, pa: nat, b: Message, from: nat, to: nat, lo: nat, hi: nat, count: nat,
                                        oa: nat -> OneRec, ob: nat -> OneRec, local: nat -> bool)
    requires Finds(oa, a) && Finds(ob, b) && from <= pa && Alike(a, pa, b, pa - from + to, lo, hi)
    requires Tells(local, a, lo, hi) && LocalSection(oa, local, pa, count) && SkimBy(oa, pa, count).Recs?
    ensures SectionBy(oa, ob, pa, from, to, count)
    ensures var end := SkimBy(oa, pa, count).next;
            pa <= end <= |a| && Alike(a, end, b, end - from + to, lo, hi)
    decreases count
  {
    if count > 0 {
      var pb := pa - from + to;
      RecordMovesBy(a, pa, b, pb, lo, hi, oa, ob, local, oa(pa));
      MovesFrom(oa, ob, pa, pb, from, to, oa(pa));
      AlikeLater(a, pa, b, pb, lo, hi, oa(pa).next - pa);
      SectionMoves(a, oa(pa).next, b, from, to, lo, hi, count - 1, oa, ob, local);
    }
  }

  /** And skimmed alike. */
  lemma {:induction false} SectionSkimmed(oa: nat -> OneRec, ob: nat -> OneRec, pos: nat, from: nat, to: nat, count: nat)
    requires SectionBy(oa, ob, pos, from, to, count)
    ensures var r := SkimBy(oa, pos, count);
            && r.Recs? && pos >= from && r.next >= pos && AllFrom(r.recs, from)
            && SkimBy(ob, pos - from + to, count) == Recs(ShiftedAll(r.recs, from, to), r.next - from + to)
    decreases count
  {
    if count > 0 { SectionSkimmed(oa, ob, oa(pos).next, from, to, count - 1); }
  }

  // ---- The rewritten message ----

  /** The header of the rewritten message: only the answer count is new. */
  predicate HeadOf(a: Message, kept: seq<Rec>, b: Message)
    requires |a| >= HEADER_LEN
  {
    && |b| >= HEADER_LEN && U16(b, 0) == U16(a, 0) && b[2] == a[2] && b[3] == a[3] && U16(b, 4) == U16(a, 4)
    && U16(b, 6) == |kept| && U16(b, 8) == U16(a, 8) && U16(b, 10) == U16(a, 10)
  }

  /** Its body around the answers, which end at `to`: the question, and what followed the answers. */
  ghost predicate FrameOf(a: Message, qend: nat, anEnd: nat, b: Message, to: nat) {
    && HEADER_LEN <= qend <= anEnd <= |a| && |b| == to + (|a| - anEnd)
    && Same(a, HEADER_LEN, b, HEADER_LEN, qend - HEADER_LEN) && Alike(a, anEnd, b, to, HEADER_LEN, qend)
  }

  /** The emitted answers. */
  ghost predicate EmittedAt(a: Message, qend: nat, kept: seq<Rec>, b: Message, to: nat) {
    AllSane(a, kept) && to == qend + |Emit(a, kept)| && Holds(b, qend, Emit(a, kept))
  }

  lemma RebuiltIs(a: Message, qend: nat, kept: seq<Rec>, anEnd: nat) returns (to: nat)
    requires HEADER_LEN <= qend <= anEnd <= |a| && AllSane(a, kept) && |kept| < 0x1_0000
    ensures var b := Rebuilt(a, qend, kept, anEnd);
            HeadOf(a, kept, b) && FrameOf(a, qend, anEnd, b, to) && EmittedAt(a, qend, kept, b, to)
  {
    var w := Emit(a, kept);
    var m := WithCount(a[..qend] + w, |kept|);
    to := qend + |w|;
    WithCountFields(a[..qend] + w, |kept|);
    TailSame(a[..qend], w, m);
    RebuiltHead(a, qend, w, m, anEnd, kept);
    RebuiltParts(a, qend, w, m, anEnd);
  }

  lemma RebuiltHead(a: Message, qend: nat, w: seq<byte>, m: Message, anEnd: nat, kept: seq<Rec>)
    requires HEADER_LEN <= qend <= anEnd <= |a| && |kept| < 0x1_0000 && m == WithCount(a[..qend] + w, |kept|)
    ensures HeadOf(a, kept, m + a[anEnd..])
  {
    WithCountFields(a[..qend] + w, |kept|);
    HeaderOfPrefix(a, qend, w);
    HeaderKept(m, a[anEnd..]);
  }

  lemma HeaderOfPrefix(a: Message, qend: nat, w: seq<byte>)
    requires HEADER_LEN <= qend <= |a|
    ensures var c := a[..qend] + w;
            && U16(c, 0) == U16(a, 0) && U16(c, 4) == U16(a, 4) && U16(c, 8) == U16(a, 8) && U16(c, 10) == U16(a, 10)
            && c[2] == a[2] && c[3] == a[3]
  {}

  lemma HeaderKept(m: Message, tail: seq<byte>)
    requires |m| >= HEADER_LEN
    ensures var b := m + tail;
            && U16(b, 0) == U16(m, 0) && U16(b, 4) == U16(m, 4) && U16(b, 6) == U16(m, 6) && U16(b, 8) == U16(m, 8)
            && U16(b, 10) == U16(m, 10) && b[2] == m[2] && b[3] == m[3]
  {}

  lemma RebuiltParts(a: Message, qend: nat, w: seq<byte>, m: Message, anEnd: nat)
    requires HEADER_LEN <= qend <= anEnd <= |a| && |m| == qend + |w|
    requires Same(a[..qend], HEADER_LEN, m, HEADER_LEN, qend - HEADER_LEN) && Holds(m, qend, w)
    ensures var b := m + a[anEnd..];
            && Same(a, HEADER_LEN, b, HEADER_LEN, qend - HEADER_LEN) && Holds(b, qend, w)
            && Alike(a, anEnd, b, qend + |w|, HEADER_LEN, qend)
  {
    var b, n := m + a[anEnd..], qend - HEADER_LEN;
    SameSlice(a[..qend], HEADER_LEN, m, HEADER_LEN, n);
    assert a[..qend][HEADER_LEN..HEADER_LEN + n] == a[HEADER_LEN..HEADER_LEN + n];
    assert m[HEADER_LEN..HEADER_LEN + n] == b[HEADER_LEN..HEADER_LEN + n];
    SameSlice(a, HEADER_LEN, b, HEADER_LEN, n);
    HoldsSlice(m, qend, w);
    assert b[qend..qend + |w|] == m[qend..qend + |w|];
    HoldsSlice(b, qend, w);
    assert b[|m|..|m| + (|a| - anEnd)] == a[anEnd..|a|];
    SameSlice(a, anEnd, b, qend + |w|, |a| - anEnd);
  }

  /** The owner names behind the answers can be moved: spelled in place, or pointing into the question. */
  ghost predicate LocalTail(one: nat -> OneRec, local: nat -> bool, w: Walked, nscount: nat, arcount: nat)
    requires w.Walked?
  {
    LocalSection(one, local, w.anEnd, nscount) && LocalSection(one, local, w.nsEnd, arcount)
  }

  lemma WalkParts(one: nat -> OneRec, pos: nat, ancount: nat, nscount: nat, arcount: nat, w: Walked)
    requires w.Walked?
    ensures WalkBy(one, pos, ancount, nscount, arcount) == w <==>
            && SkimBy(one, pos, ancount) == Recs(w.an, w.anEnd) && SkimBy(one, w.anEnd, nscount) == Recs(w.ns, w.nsEnd)
            && SkimBy(one, w.nsEnd, arcount) == Recs(w.ar, w.end)
  {}

  /** The same record in another buffer: its owner name as sent, the same fields and data. */
  ghost predicate SameRecord(a: Message, rec: Rec, b: Message, got: Rec) {
    && got.name == Sent(rec.name) && got.rtype == rec.rtype && got.rclass == rec.rclass
    && got.ttl == rec.ttl && got.rdlength == rec.rdlength && Holds(b, got.rdataAt, Data(a, rec))
  }

  ghost predicate SameRecords(a: Message, recs: seq<Rec>, b: Message, got: seq<Rec>) {
    |got| == |recs| && forall i :: 0 <= i < |recs| ==> SameRecord(a, recs[i], b, got[i])
  }

  /** The emitted answers are skimmed as the same records. */
  lemma AnswersPart(a: Message, b: Message, qend: nat, kept: seq<Rec>, to: nat, ob: nat -> OneRec) returns (answers: seq<Rec>)
    requires EmittedAt(a, qend, kept, b, to) && Finds(ob, b)
    ensures SameRecords(a, kept, b, answers) && SkimBy(ob, qend, |kept|) == Recs(answers, to)
    ensures answers == PlacedAll(kept, qend)
  {
    EmitStands(a, b, qend, kept, ob);
    StandSkimmed(ob, a, b, qend, kept, to);
    answers := PlacedAll(kept, qend);
    forall i | 0 <= i < |kept| ensures SameRecord(a, kept[i], b, answers[i]) { StandHeld(ob, a, b, qend, kept, to, i); }
  }

  /** The rewritten message's sections: the kept answers, then the others moved. */
  function MovedWalk(w: Walked, answers: seq<Rec>, to: nat): Walked
    requires w.Walked? && AllFrom(w.ns, w.anEnd) && AllFrom(w.ar, w.anEnd) && w.anEnd <= w.nsEnd && w.anEnd <= w.end
  {
    Walked(answers, to, ShiftedAll(w.ns, w.anEnd, to), w.nsEnd - w.anEnd + to,
           ShiftedAll(w.ar, w.anEnd, to), w.end - w.anEnd + to)
  }

  lemma SectionPart(a: Message, pa: nat, b: Message, from: nat, to: nat, hi: nat, count: nat,
                    oa: nat -> OneRec, ob: nat -> OneRec, local: nat -> bool, recs: seq<Rec>, end: nat)
    requires Finds(oa, a) && Finds(ob, b) && from <= pa && Alike(a, pa, b, pa - from + to, HEADER_LEN, hi)
    requires Tells(local, a, HEADER_LEN, hi) && LocalSection(oa, local, pa, count) && SkimBy(oa, pa, count) == Recs(recs, end)
    ensures pa <= end <= |a| && AllFrom(recs, from) && Alike(a, end, b, end - from + to, HEADER_LEN, hi)
    ensures SkimBy(ob, pa - from + to, count) == Recs(ShiftedAll(recs, from, to), end - from + to)
  {
    SectionMoves(a, pa, b, from, to, HEADER_LEN, hi, count, oa, ob, local);
    SectionSkimmed(oa, ob, pa, from, to, count);
  }

  /** Both sections behind the answers are skimmed alike. */
  lemma TailSkimmed(a: Message, b: Message, w: Walked, to: nat, hi: nat, nscount: nat, arcount: nat,
                    oa: nat -> OneRec, ob: nat -> OneRec, local: nat -> bool)
    requires Finds(oa, a) && Finds(ob, b) && w.Walked? && LocalTail(oa, local, w, nscount, arcount)
    requires Tells(local, a, HEADER_LEN, hi) && Alike(a, w.anEnd, b, to, HEADER_LEN, hi)
    requires SkimBy(oa, w.anEnd, nscount) == Recs(w.ns, w.nsEnd) && SkimBy(oa, w.nsEnd, arcount) == Recs(w.ar, w.end)
    ensures AllFrom(w.ns, w.anEnd) && AllFrom(w.ar, w.anEnd) && w.anEnd <= w.nsEnd <= w.end
    ensures SkimBy(ob, to, nscount) == Recs(ShiftedAll(w.ns, w.anEnd, to), w.nsEnd - w.anEnd + to)
    ensures SkimBy(ob, w.nsEnd - w.anEnd + to, arcount) == Recs(ShiftedAll(w.ar, w.anEnd, to), w.end - w.anEnd + to)
  {
    SectionPart(a, w.anEnd, b, w.anEnd, to, hi, nscount, oa, ob, local, w.ns, w.nsEnd);
    SectionPart(a, w.nsEnd, b, w.anEnd, to, hi, arcount, oa, ob, local, w.ar, w.end);
  }

  lemma JoinWalk(ob: nat -> OneRec, qend: nat, count: nat, nscount: nat, arcount: nat, w: Walked, answers: seq<Rec>, to: nat)
    requires w.Walked? && AllFrom(w.ns, w.anEnd) && AllFrom(w.ar, w.anEnd) && w.anEnd <= w.nsEnd <= w.end
    requires SkimBy(ob, qend, count) == Recs(answers, to)
    requires SkimBy(ob, to, nscount) == Recs(ShiftedAll(w.ns, w.anEnd, to), w.nsEnd - w.anEnd + to)
    requires SkimBy(ob, w.nsEnd - w.anEnd + to, arcount) == Recs(ShiftedAll(w.ar, w.anEnd, to), w.end - w.anEnd + to)
    ensures WalkBy(ob, qend, count, nscount, arcount) == MovedWalk(w, answers, to)
  {
    WalkParts(ob, qend, count, nscount, arcount, MovedWalk(w, answers, to));
  }

  /** The response is one whose rewriting is safe: a plain question, and movable names behind the answers. */
  ghost predicate Movable(a: Message, p: Parsed, w: Walked) {
    && p.Parsed? && p == ParseQuestion(a) && PlainName(a, HEADER_LEN) && w == Complete(a) && w.Walked?
    && LocalTail(Finder(a), Locals(a, HEADER_LEN, p.qend), w, U16(a, 8), U16(a, 10))
  }

  /** The filter rewrites, rather than pass the response through. */
  predicate Rewrites(drop: seq<u16>, anyDefang: bool, isAny: bool) { drop != [] || (anyDefang && isAny) }

  lemma FilterIsRebuilt(a: Message, p: Parsed, an: Skimmed, drop: seq<u16>, anyDefang: bool, isAny: bool, b: Message)
    requires FilterWire(a, drop, anyDefang, isAny) == Some(b) && Rewrites(drop, anyDefang, isAny)
    requires p == ParseQuestion(a) && p.Parsed? && an == Skim(a, p.qend, U16(a, 6)) && an.Recs?
    ensures p.qend <= an.next <= |a| && b == Rebuilt(a, p.qend, Kept(an.recs, drop, anyDefang && isAny), an.next)
  {
    SkimInside(a, p.qend, U16(a, 6));
  }

  lemma KeptFits(a: Message, pos: nat, an: Skimmed, drop: seq<u16>, defang: bool, kept: seq<Rec>)
    requires |a| >= HEADER_LEN && pos <= |a| && an == Skim(a, pos, U16(a, 6)) && an.Recs? && kept == Kept(an.recs, drop, defang)
    ensures AllSane(a, kept) && |kept| < 0x1_0000
  {
    SkimInside(a, pos, U16(a, 6));
    SkimCount(Finder(a), pos, U16(a, 6));
    KeptSane(a, an.recs, drop, defang);
  }

  lemma RebuiltShape(a: Message, p: Parsed, an: Skimmed, drop: seq<u16>, defang: bool, kept: seq<Rec>) returns (to: nat)
    requires p.Parsed? && |a| >= HEADER_LEN && HEADER_LEN <= p.qend <= |a|
    requires an == Skim(a, p.qend, U16(a, 6)) && an.Recs? && kept == Kept(an.recs, drop, defang) && p.qend <= an.next <= |a|
    ensures var b := Rebuilt(a, p.qend, kept, an.next);
            HeadOf(a, kept, b) && FrameOf(a, p.qend, an.next, b, to) && EmittedAt(a, p.qend, kept, b, to)
  {
    KeptFits(a, p.qend, an, drop, defang, kept);
    to := RebuiltIs(a, p.qend, kept, an.next);
  }

  lemma RebuiltSections(a: Message, p: Parsed, w: Walked, b: Message, count: nat, answers: seq<Rec>, to: nat)
    requires p.Parsed? && |a| >= HEADER_LEN && |b| >= HEADER_LEN && w.Walked? && FrameOf(a, p.qend, w.anEnd, b, to)
    requires Skim(a, w.anEnd, U16(a, 8)) == Recs(w.ns, w.nsEnd) && Skim(a, w.nsEnd, U16(a, 10)) == Recs(w.ar, w.end)
    requires LocalTail(Finder(a), Locals(a, HEADER_LEN, p.qend), w, U16(a, 8), U16(a, 10))
    requires U16(b, 6) == count && U16(b, 8) == U16(a, 8) && U16(b, 10) == U16(a, 10)
    requires Skim(b, p.qend, count) == Recs(answers, to)
    ensures AllFrom(w.ns, w.anEnd) && AllFrom(w.ar, w.anEnd) && w.anEnd <= w.nsEnd <= w.end
    ensures Sections(b, p.qend) == MovedWalk(w, answers, to)
  {
    TailSkimmed(a, b, w, to, p.qend, U16(a, 8), U16(a, 10), Finder(a), Finder(b), Locals(a, HEADER_LEN, p.qend));
    JoinWalk(Finder(b), p.qend, count, U16(a, 8), U16(a, 10), w, answers, to);
  }

  lemma CompleteIs(b: Message, p: Parsed, w: Walked)
    requires p.Parsed? && ParseQuestion(b) == p && U16(b, 4) == 1 && w.Walked? && w.end == |b| && Sections(b, p.qend) == w
    ensures Complete(b) == w
  {}

  lemma CompleteParts(a: Message, p: Parsed, w: Walked)
    requires p == ParseQuestion(a) && w == Complete(a) && w.Walked?
    ensures p.Parsed? && U16(a, 4) == 1 && w.end == |a|
    ensures Skim(a, p.qend, U16(a, 6)) == Recs(w.an, w.anEnd)
    ensures Skim(a, w.anEnd, U16(a, 8)) == Recs(w.ns, w.nsEnd) && Skim(a, w.nsEnd, U16(a, 10)) == Recs(w.ar, w.end)
  {
    WalkParts(Finder(a), p.qend, U16(a, 6), U16(a, 8), U16(a, 10), w);
  }

  lemma RebuiltQuestion(a: Message, p: Parsed, kept: seq<Rec>, anEnd: nat, b: Message, to: nat)
    requires p == ParseQuestion(a) && p.Parsed? && PlainName(a, HEADER_LEN) && U16(a, 4) == 1
    requires HeadOf(a, kept, b) && FrameOf(a, p.qend, anEnd, b, to)
    ensures ParseQuestion(b) == p && PlainName(b, HEADER_LEN)
  {
    QuestionKept(a, b);
  }

  lemma RebuiltComplete(a: Message, p: Parsed, w: Walked, kept: seq<Rec>, b: Message, to: nat) returns (answers: seq<Rec>)
    requires Movable(a, p, w) && HeadOf(a, kept, b) && FrameOf(a, p.qend, w.anEnd, b, to) && EmittedAt(a, p.qend, kept, b, to)
    ensures AllFrom(w.ns, w.anEnd) && AllFrom(w.ar, w.anEnd) && w.anEnd <= w.nsEnd <= w.end
    ensures ParseQuestion(b) == p && PlainName(b, HEADER_LEN)
    ensures SameRecords(a, kept, b, answers) && answers == PlacedAll(kept, p.qend)
    ensures Complete(b) == MovedWalk(w, answers, to)
  {
    CompleteParts(a, p, w);
    answers := AnswersPart(a, b, p.qend, kept, to, Finder(b));
    RebuiltQuestion(a, p, kept, w.anEnd, b, to);
    RebuiltSections(a, p, w, b, |kept|, answers, to);
    CompleteIs(b, p, MovedWalk(w, answers, to));
  }

  lemma JudgeKept(q: Question, r: Question, flags: byte, code: byte, w: Walked, size: nat, other: Walked, otherSize: nat)
    requires Judge(q, r, flags, code, 1, w, size) == Accepted && other.Walked? && other.end == otherSize
    ensures Judge(q, r, flags, code, 1, other, otherSize) == Accepted
  {}

  lemma VerdictKept(query: Message, a: Message, b: Message)
    requires Validate(query, a) == Accepted && ParseQuestion(b) == ParseQuestion(a) && Complete(b).Walked?
    requires b[2] == a[2] && b[3] == a[3]
    ensures Validate(query, b) == Accepted
  {
    var q, r := ParseQuestion(query), ParseQuestion(a);
    JudgeKept(q.q, r.q, a[2], a[3], Sections(a, r.qend), |a|, Sections(b, r.qend), |b|);
  }

  lemma RebuiltPreserves(a: Message, p: Parsed, w: Walked, drop: seq<u16>, defang: bool, kept: seq<Rec>, b: Message)
    returns (answers: seq<Rec>, to: nat)
    requires Movable(a, p, w) && kept == Kept(w.an, drop, defang) && p.qend <= w.anEnd <= |a|
    requires b == Rebuilt(a, p.qend, kept, w.anEnd)
    ensures ParseQuestion(b) == p && |b| >= HEADER_LEN && b[2] == a[2] && b[3] == a[3]
    ensures AllFrom(w.ns, w.anEnd) && AllFrom(w.ar, w.anEnd) && w.anEnd <= w.nsEnd <= w.end
    ensures SameRecords(a, kept, b, answers) && Complete(b) == MovedWalk(w, answers, to)
    ensures Alike(a, w.anEnd, b, to, HEADER_LEN, p.qend)
  {
    CompleteParts(a, p, w);
    to := RebuiltShape(a, p, Recs(w.an, w.anEnd), drop, defang, kept);
    answers := RebuiltComplete(a, p, w, kept, b, to);
  }

  /** What filtering preserves. For every complete response with a plain question and movable names
      behind its answers, the rewritten message keeps the question and flags; its answers are exactly the
      kept ones, in order, with the same fields and data; and everything behind them is the same, moved. */
  lemma FilterPreserves(a: Message, p: Parsed, w: Walked, drop: seq<u16>, anyDefang: bool, isAny: bool, b: Message)
    returns (answers: seq<Rec>, to: nat)
    requires Movable(a, p, w) && FilterWire(a, drop, anyDefang, isAny) == Some(b) && Rewrites(drop, anyDefang, isAny)
    ensures ParseQuestion(b) == p && |b| >= HEADER_LEN && b[2] == a[2] && b[3] == a[3]
    ensures AllFrom(w.ns, w.anEnd) && AllFrom(w.ar, w.anEnd) && w.anEnd <= w.nsEnd <= w.end
    ensures SameRecords(a, Kept(w.an, drop, anyDefang && isAny), b, answers)
    ensures Complete(b) == MovedWalk(w, answers, to) && Alike(a, w.anEnd, b, to, HEADER_LEN, p.qend)
  {
    CompleteParts(a, p, w);
    FilterIsRebuilt(a, p, Recs(w.an, w.anEnd), drop, anyDefang, isAny, b);
    var kept := Kept(w.an, drop, anyDefang && isAny);
    answers, to := RebuiltPreserves(a, p, w, drop, anyDefang && isAny, kept, b);
  }

  /** A response accepted for a query stays accepted when it is filtered. */
  lemma FilterStaysAccepted(query: Message, a: Message, p: Parsed, w: Walked, drop: seq<u16>, anyDefang: bool, isAny: bool, b: Message)
    requires Validate(query, a) == Accepted && Movable(a, p, w) && FilterWire(a, drop, anyDefang, isAny) == Some(b)
    ensures Validate(query, b) == Accepted
  {
    if Rewrites(drop, anyDefang, isAny) {
      var answers, to := FilterPreserves(a, p, w, drop, anyDefang, isAny, b);
      VerdictKept(query, a, b);
    } else {
      PassedThrough(a, drop, anyDefang, isAny);
    }
  }

  lemma PassedThrough(a: Message, drop: seq<u16>, anyDefang: bool, isAny: bool)
    requires !Rewrites(drop, anyDefang, isAny) && FilterWire(a, drop, anyDefang, isAny).Some?
    ensures FilterWire(a, drop, anyDefang, isAny) == Some(a)
  {}

  /** A kept answer keeps its (ASCII) owner name exactly when that name has no empty label. */
  lemma OwnerNameKept(a: Message, rec: Rec, b: Message, got: Rec)
    requires Sane(a, rec) && SameRecord(a, rec, b, got)
    ensures got.name == rec.name <==> NoEmptyLabel(rec.name)
  {
    SentExactly(rec.name);
  }

  /** A moved record is the same record: its data stands in its new place. */
  lemma MovedRecordKept(a: Message, from: nat, b: Message, to: nat, lo: nat, hi: nat, rec: Rec)
    requires Alike(a, from, b, to, lo, hi) && rec.rdataAt >= from && rec.rdataAt + rec.rdlength <= |a|
    ensures Data(b, Shifted(rec, from, to)) == Data(a, rec)
  {
    var k := rec.rdataAt - from;
    SamePart(a, from, b, to, |a| - from, k, rec.rdlength);
    SameSlice(a, rec.rdataAt, b, to + k, rec.rdlength);
  }

  /** The same record in another buffer, its owner name included. */
  ghost predicate KeptRecord(a: Message, rec: Rec, b: Message, got: Rec) {
    && got.name == rec.name && got.rtype == rec.rtype && got.rclass == rec.rclass && got.ttl == rec.ttl
    && got.rdlength == rec.rdlength && got.rdataAt + got.rdlength <= |b| && Data(b, got) == Data(a, rec)
  }

  ghost predicate KeptRecords(a: Message, recs: seq<Rec>, b: Message, got: seq<Rec>) {
    |got| == |recs| && forall i :: 0 <= i < |recs| ==> KeptRecord(a, recs[i], b, got[i])
  }

  lemma ShiftedKept(a: Message, from: nat, b: Message, to: nat, lo: nat, hi: nat, recs: seq<Rec>)
    requires Alike(a, from, b, to, lo, hi) && AllFrom(recs, from) && AllSane(a, recs)
    ensures KeptRecords(a, recs, b, ShiftedAll(recs, from, to))
  {
    forall i | 0 <= i < |recs| ensures KeptRecord(a, recs[i], b, ShiftedAll(recs, from, to)[i]) {
      ShiftedAt(recs, from, to, i);
      assert Sane(a, recs[i]);
      MovedRecordKept(a, from, b, to, lo, hi, recs[i]);
    }
  }

  lemma WalkedSane(a: Message, p: Parsed, w: Walked)
    requires Movable(a, p, w)
    ensures AllSane(a, w.an) && AllSane(a, w.ns) && AllSane(a, w.ar)
  {
    CompleteParts(a, p, w);
    SkimInside(a, p.qend, U16(a, 6));
    SkimInside(a, w.anEnd, U16(a, 8));
    SkimInside(a, w.nsEnd, U16(a, 10));
  }

  /** The authority records of the filtered message are those of the response, one by one, and so are the
      additional ones: same owner name, type, class, time to live and data. */
  lemma TailKept(a: Message, p: Parsed, w: Walked, drop: seq<u16>, anyDefang: bool, isAny: bool, b: Message)
    requires Movable(a, p, w) && FilterWire(a, drop, anyDefang, isAny) == Some(b) && Rewrites(drop, anyDefang, isAny)
    ensures AuthorityRecords(b).Some? && KeptRecords(a, w.ns, b, AuthorityRecords(b).value)
    ensures Complete(b).Walked? && KeptRecords(a, w.ar, b, Complete(b).ar)
  {
    var answers, to := FilterPreserves(a, p, w, drop, anyDefang, isAny, b);
    WalkedSane(a, p, w);
    ShiftedKept(a, w.anEnd, b, to, HEADER_LEN, p.qend, w.ns);
    ShiftedKept(a, w.anEnd, b, to, HEADER_LEN, p.qend, w.ar);
  }

  /** The question's bytes are kept. */
  lemma StretchKept(a: Message, p: Parsed, w: Walked, drop: seq<u16>, anyDefang: bool, isAny: bool, b: Message)
    requires Movable(a, p, w) && FilterWire(a, drop, anyDefang, isAny) == Some(b) && Rewrites(drop, anyDefang, isAny)
    ensures HEADER_LEN <= p.qend && Same(a, HEADER_LEN, b, HEADER_LEN, p.qend - HEADER_LEN)
  {
    var answers, to := FilterPreserves(a, p, w, drop, anyDefang, isAny, b);
  }

  lemma AnswersKept(a: Message, p: Parsed, w: Walked, drop: seq<u16>, anyDefang: bool, isAny: bool, b: Message)
    requires Movable(a, p, w) && FilterWire(a, drop, anyDefang, isAny) == Some(b) && Rewrites(drop, anyDefang, isAny)
    ensures AnswerRecords(b).Some? && SameRecords(a, Kept(w.an, drop, anyDefang && isAny), b, AnswerRecords(b).value)
  {
    var answers, to := FilterPreserves(a, p, w, drop, anyDefang, isAny, b);
  }

  // ---- Which answers are left ----

  /** Strictly increasing positions below `size`. */
  ghost predicate Ascending(from: seq<nat>, size: nat) {
    && (forall i :: 0 <= i < |from| ==> from[i] < size)
    && forall i, j :: 0 <= i < j < |from| ==> from[i] < from[j]
  }

  /** The records at these positions. */
  ghost predicate PickedAt(recs: seq<Rec>, from: seq<nat>, kept: seq<Rec>) {
    |kept| == |from| && Ascending(from, |recs|) && forall i :: 0 <= i < |from| ==> kept[i] == recs[from[i]]
  }

  /** What the operator asked for: other classes stay; in class IN no type of the drop list, and for a
      defanged reply only A, AAAA, MX and CNAME. */
  predicate Wanted(rclass: u16, rtype: u16, drop: seq<u16>, defang: bool) {
    rclass == 1 ==> rtype !in drop && (defang ==> rtype == 1 || rtype == 28 || rtype == 15 || rtype == 5)
  }

  ghost predicate PicksWanted(recs: seq<Rec>, drop: seq<u16>, defang: bool, from: seq<nat>) {
    forall j: nat :: j < |recs| ==> (j in from <==> Wanted(recs[j].rclass, recs[j].rtype, drop, defang))
  }

  /** The positions, one further on. */
  function Shift(from: seq<nat>): (r: seq<nat>)
    ensures |r| == |from|
  {
    if from == [] then [] else [from[0] + 1] + Shift(from[1..])
  }

  lemma {:induction false} ShiftAt(from: seq<nat>, i: nat)
    requires i < |from|
    ensures Shift(from)[i] == from[i] + 1
  {
    if i > 0 { ShiftAt(from[1..], i - 1); }
  }

  lemma ShiftMembers(from: seq<nat>, j: nat)
    ensures j in Shift(from) <==> j > 0 && j - 1 in from
  {
    if j in Shift(from) {
      var i :| 0 <= i < |from| && Shift(from)[i] == j;
      ShiftAt(from, i);
    }
    if j > 0 && j - 1 in from {
      var i :| 0 <= i < |from| && from[i] == j - 1;
      ShiftAt(from, i);
    }
  }

  lemma ShiftAscends(from: seq<nat>, size: nat)
    requires Ascending(from, size)
    ensures Ascending(Shift(from), size + 1) && Ascending([0] + Shift(from), size + 1)
  {
    var up := Shift(from);
    forall i | 0 <= i < |from| ensures up[i] == from[i] + 1 { ShiftAt(from, i); }
  }

  lemma ShiftPicks(recs: seq<Rec>, rest: seq<nat>, kept: seq<Rec>)
    requires recs != [] && PickedAt(recs[1..], rest, kept)
    ensures PickedAt(recs, Shift(rest), kept) && PickedAt(recs, [0] + Shift(rest), [recs[0]] + kept)
  {
    ShiftAscends(rest, |recs| - 1);
    forall i | 0 <= i < |rest| ensures kept[i] == recs[Shift(rest)[i]] {
      ShiftAt(rest, i);
      assert kept[i] == recs[1..][rest[i]];
    }
  }

  lemma {:induction false} KeptPicks(recs: seq<Rec>, drop: seq<u16>, defang: bool) returns (from: seq<nat>)
    ensures PickedAt(recs, from, Kept(recs, drop, defang)) && PicksWanted(recs, drop, defang, from)
  {
    if recs == [] {
      from := [];
    } else {
      var rest := KeptPicks(recs[1..], drop, defang);
      ShiftPicks(recs, rest, Kept(recs[1..], drop, defang));
      from := if Keep(recs[0], drop, defang) then [0] + Shift(rest) else Shift(rest);
      forall j: nat | j < |recs| ensures j in from <==> Wanted(recs[j].rclass, recs[j].rtype, drop, defang) {
        ShiftMembers(rest, j);
        if j > 0 { assert recs[1..][j - 1] == recs[j]; }
      }
      assert [] + Kept(recs[1..], drop, defang) == Kept(recs[1..], drop, defang);
    }
  }

  /** The answers the filter leaves, exactly. They stand for the response's answers at increasing
      positions, each the same record; those positions are precisely the wanted ones; so every answer
      left in class IN has a type outside the drop list and, in a defanged reply, one of A, AAAA, MX and
      CNAME. */
  lemma AnswersLeft(a: Message, p: Parsed, w: Walked, drop: seq<u16>, anyDefang: bool, isAny: bool, b: Message)
    returns (answers: seq<Rec>, from: seq<nat>)
    requires Movable(a, p, w) && FilterWire(a, drop, anyDefang, isAny) == Some(b) && Rewrites(drop, anyDefang, isAny)
    ensures AnswerRecords(b) == Some(answers) && |answers| == |from| && Ascending(from, |w.an|)
    ensures forall i :: 0 <= i < |from| ==> SameRecord(a, w.an[from[i]], b, answers[i])
    ensures PicksWanted(w.an, drop, anyDefang && isAny, from)
    ensures forall i :: 0 <= i < |answers| ==> Wanted(answers[i].rclass, answers[i].rtype, drop, anyDefang && isAny)
  {
    AnswersKept(a, p, w, drop, anyDefang, isAny, b);
    answers := AnswerRecords(b).value;
    from := KeptPicks(w.an, drop, anyDefang && isAny);
    LeftFrom(a, w.an, Kept(w.an, drop, anyDefang && isAny), b, answers, from, drop, anyDefang && isAny);
  }

  lemma LeftFrom(a: Message, recs: seq<Rec>, kept: seq<Rec>, b: Message, answers: seq<Rec>, from: seq<nat>,
                 drop: seq<u16>, defang: bool)
    requires SameRecords(a, kept, b, answers) && PickedAt(recs, from, kept) && PicksWanted(recs, drop, defang, from)
    ensures |answers| == |from|
    ensures forall i :: 0 <= i < |from| ==> SameRecord(a, recs[from[i]], b, answers[i])
    ensures forall i :: 0 <= i < |answers| ==> Wanted(answers[i].rclass, answers[i].rtype, drop, defang)
  {
    forall i | 0 <= i < |from|
      ensures SameRecord(a, recs[from[i]], b, answers[i]) && Wanted(answers[i].rclass, answers[i].rtype, drop, defang)
    {
      assert SameRecord(a, kept[i], b, answers[i]) && from[i] in from;
    }
  }

  // ---- Names inside the data ----

  /** A name `off` bytes into the data that is movable and ends within the data. */
  predicate LocalInData(a: Message, rec: Rec, off: nat, qend: nat) {
    var at := rec.rdataAt + off;
    LocalName(a, at, HEADER_LEN, qend) && LocalEnd(a, at, HEADER_LEN, qend) <= rec.rdataAt + rec.rdlength
  }

  /** The same name is read from the data in both buffers. */
  ghost predicate SameDataName(a: Message, rec: Rec, b: Message, got: Rec, off: nat) {
    var pa, pb := rec.rdataAt + off, got.rdataAt + off;
    MovedReading(ReadName(a, pa), pa, ReadName(b, pb), pb)
  }

  lemma DataNameMoves(a: Message, rec: Rec, b: Message, got: Rec, off: nat, qend: nat)
    requires HEADER_LEN <= qend && Same(a, HEADER_LEN, b, HEADER_LEN, qend - HEADER_LEN) && LocalInData(a, rec, off, qend)
    requires Same(a, rec.rdataAt, b, got.rdataAt, rec.rdlength)
    ensures SameDataName(a, rec, b, got, off)
  {
    InnerNameMoves(a, rec.rdataAt, b, got.rdataAt, rec.rdlength, off, HEADER_LEN, qend);
  }

  lemma SameRecordData(a: Message, rec: Rec, b: Message, got: Rec)
    requires Sane(a, rec) && SameRecord(a, rec, b, got)
    ensures Same(a, rec.rdataAt, b, got.rdataAt, rec.rdlength)
  {
    HoldsSlice(b, got.rdataAt, Data(a, rec));
    SameSlice(a, rec.rdataAt, b, got.rdataAt, rec.rdlength);
  }

  lemma AnswerDataName(a: Message, rec: Rec, b: Message, got: Rec, off: nat, qend: nat)
    requires HEADER_LEN <= qend && Same(a, HEADER_LEN, b, HEADER_LEN, qend - HEADER_LEN) && LocalInData(a, rec, off, qend)
    requires Sane(a, rec) && SameRecord(a, rec, b, got)
    ensures SameDataName(a, rec, b, got, off)
  {
    SameRecordData(a, rec, b, got);
    DataNameMoves(a, rec, b, got, off, qend);
  }

  lemma TailDataName(a: Message, rec: Rec, b: Message, got: Rec, off: nat, qend: nat)
    requires HEADER_LEN <= qend && Same(a, HEADER_LEN, b, HEADER_LEN, qend - HEADER_LEN) && LocalInData(a, rec, off, qend)
    requires Sane(a, rec) && KeptRecord(a, rec, b, got)
    ensures SameDataName(a, rec, b, got, off)
  {
    SameSlice(a, rec.rdataAt, b, got.rdataAt, rec.rdlength);
    DataNameMoves(a, rec, b, got, off, qend);
  }

  /** A name inside a kept answer's data (a CNAME or MX target, say) reads the same afterwards when it is
      spelled there, or points into the question. */
  lemma AnswerDataNames(a: Message, p: Parsed, w: Walked, drop: seq<u16>, anyDefang: bool, isAny: bool, b: Message,
                        kept: seq<Rec>, i: nat, off: nat)
    requires Movable(a, p, w) && FilterWire(a, drop, anyDefang, isAny) == Some(b) && Rewrites(drop, anyDefang, isAny)
    requires kept == Kept(w.an, drop, anyDefang && isAny) && i < |kept| && LocalInData(a, kept[i], off, p.qend)
    ensures AnswerRecords(b).Some? && i < |AnswerRecords(b).value|
    ensures SameDataName(a, kept[i], b, AnswerRecords(b).value[i], off)
  {
    AnswersKept(a, p, w, drop, anyDefang, isAny, b);
    StretchKept(a, p, w, drop, anyDefang, isAny, b);
    WalkedSane(a, p, w);
    KeptSane(a, w.an, drop, anyDefang && isAny);
    assert Sane(a, kept[i]) && SameRecord(a, kept[i], b, AnswerRecords(b).value[i]);
    AnswerDataName(a, kept[i], b, AnswerRecords(b).value[i], off, p.qend);
  }

  /** And so does one inside an authority record's data (an SOA's, say). */
  lemma AuthorityDataNames(a: Message, p: Parsed, w: Walked, drop: seq<u16>, anyDefang: bool, isAny: bool, b: Message,
                           i: nat, off: nat)
    requires Movable(a, p, w) && FilterWire(a, drop, anyDefang, isAny) == Some(b) && Rewrites(drop, anyDefang, isAny)
    requires i < |w.ns| && LocalInData(a, w.ns[i], off, p.qend)
    ensures AuthorityRecords(b).Some? && i < |AuthorityRecords(b).value|
    ensures SameDataName(a, w.ns[i], b, AuthorityRecords(b).value[i], off)
  {
    TailKept(a, p, w, drop, anyDefang, isAny, b);
    StretchKept(a, p, w, drop, anyDefang, isAny, b);
    WalkedSane(a, p, w);
    assert Sane(a, w.ns[i]) && KeptRecord(a, w.ns[i], b, AuthorityRecords(b).value[i]);
    TailDataName(a, w.ns[i], b, AuthorityRecords(b).value[i], off, p.qend);
  }

  /** A name inside the data that stops at a pointer to or past the end of the other message. */
  predicate PointsPast(a: Message, rec: Rec, off: nat, size: nat) {
    var stop := Stop(a, rec.rdataAt + off);
    MarkAt(a, stop).Jump? && MarkAt(a, stop).to >= size && stop + 2 <= rec.rdataAt + rec.rdlength
  }

  lemma PastNameLost(a: Message, rec: Rec, b: Message, at: nat, off: nat)
    requires PointsPast(a, rec, off, |b|) && Same(a, rec.rdataAt, b, at, rec.rdlength)
    ensures ReadName(b, at + off) == NoName
  {
    SamePart(a, rec.rdataAt, b, at, rec.rdlength, off, rec.rdlength - off);
    CutNameLost(a, rec.rdataAt + off, b, at + off, rec.rdlength - off);
  }

  /** Such a name can no longer be read. */
  lemma DataNameLost(a: Message, rec: Rec, b: Message, got: Rec, off: nat)
    requires Sane(a, rec) && SameRecord(a, rec, b, got) && PointsPast(a, rec, off, |b|)
    ensures ReadName(b, got.rdataAt + off) == NoName
  {
    SameRecordData(a, rec, b, got);
    PastNameLost(a, rec, b, got.rdataAt, off);
  }

  // ---- Filtering twice ----

  lemma {:induction false} SentIsLabels(n: Name)
    ensures Labels(SentLabels(n), DOT)
  {
    SentLabelsFit(n);
    SplitLabels(n, DOT);
    ClipClean(NonEmpty(Split(n, DOT)));
    var ls := SentLabels(n);
    forall i | 0 <= i < |ls| ensures ls[i] != [] && DOT !in ls[i] { assert 1 <= |ls[i]|; }
  }

  /** What was sent is sent again as it was. */
  lemma SentTwice(n: Name)
    ensures WireName(Sent(n)) == WireName(n) && Sent(Sent(n)) == Sent(n)
  {
    var ls := SentLabels(n);
    SentLabelsFit(n);
    SentIsLabels(n);
    LabelsRoundTrip(ls, DOT);
    assert forall i :: 0 <= i < |ls| ==> |ls[i]| <= MAX_LABEL_LEN;
    ClipKeeps(ls);
  }

  lemma {:induction false} KeptTwice(recs: seq<Rec>, drop: seq<u16>, defang: bool, pos: nat)
    ensures var kept := Kept(recs, drop, defang); Kept(PlacedAll(kept, pos), drop, defang) == PlacedAll(kept, pos)
  {
    AllKeep(recs, drop, defang);
    KeepsPlaced(Kept(recs, drop, defang), drop, defang, pos);
  }

  lemma {:induction false} AllKeep(recs: seq<Rec>, drop: seq<u16>, defang: bool)
    ensures forall i :: 0 <= i < |Kept(recs, drop, defang)| ==> Keep(Kept(recs, drop, defang)[i], drop, defang)
  {
    if recs != [] { AllKeep(recs[1..], drop, defang); }
  }

  lemma {:induction false} KeepsPlaced(kept: seq<Rec>, drop: seq<u16>, defang: bool, pos: nat)
    requires forall i :: 0 <= i < |kept| ==> Keep(kept[i], drop, defang)
    ensures Kept(PlacedAll(kept, pos), drop, defang) == PlacedAll(kept, pos)
    decreases |kept|
  {
    if kept != [] {
      var rest := PlacedAll(kept[1..], pos + Width(kept[0]));
      assert Keep(kept[0], drop, defang);
      KeepsPlaced(kept[1..], drop, defang, pos + Width(kept[0]));
      assert ([Placed(kept[0], pos)] + rest)[1..] == rest;
    }
  }

  lemma RewrittenTwice(a: Message, rec: Rec, b: Message, got: Rec)
    requires Sane(a, rec) && SameRecord(a, rec, b, got)
    ensures Rewritten(b, got) == Rewritten(a, rec)
  {
    SentTwice(rec.name);
    HoldsSlice(b, got.rdataAt, Data(a, rec));
  }

  lemma {:induction false} EmitTwice(a: Message, recs: seq<Rec>, b: Message, got: seq<Rec>)
    requires AllSane(a, recs) && SameRecords(a, recs, b, got)
    ensures Emit(b, got) == Emit(a, recs)
    decreases |recs|
  {
    if recs != [] {
      AllSaneTail(a, recs);
      assert SameRecord(a, recs[0], b, got[0]);
      RewrittenTwice(a, recs[0], b, got[0]);
      forall i | 0 <= i < |recs[1..]| ensures SameRecord(a, recs[1..][i], b, got[1..][i]) {
        assert SameRecord(a, recs[i + 1], b, got[i + 1]);
      }
      EmitTwice(a, recs[1..], b, got[1..]);
    }
  }

  lemma Halves(hi: byte, lo: byte, n: nat)
    requires n == hi as int * 256 + lo
    ensures n % 0x1_0000 / 256 == hi && n % 256 == lo
  {}

  lemma CountTwice(m: Message, count: nat)
    requires |m| >= HEADER_LEN && U16(m, 6) == count
    ensures WithCount(m, count) == m
  {
    Halves(m[6], m[7], count);
    assert m[6 := m[6]] == m && m[7 := m[7]] == m;
  }

  lemma CutAt(b: Message, qend: nat, w: seq<byte>)
    requires Holds(b, qend, w)
    ensures b[..qend] + w == b[..qend + |w|] && b[..qend + |w|] + b[qend + |w|..] == b
  {
    HoldsSlice(b, qend, w);
  }

  lemma RebuiltTwice(a: Message, qend: nat, kept: seq<Rec>, b: Message, answers: seq<Rec>, to: nat)
    requires EmittedAt(a, qend, kept, b, to) && SameRecords(a, kept, b, answers)
    requires HEADER_LEN <= qend <= to <= |b| && U16(b, 6) == |kept|
    ensures Rebuilt(b, qend, answers, to) == b
  {
    EmitTwice(a, kept, b, answers);
    CutAt(b, qend, Emit(a, kept));
    CountTwice(b[..to], |kept|);
  }

  lemma FilterAgain(b: Message, p: Parsed, an: Skimmed, drop: seq<u16>, anyDefang: bool, isAny: bool)
    requires p.Parsed? && ParseQuestion(b) == p && U16(b, 4) == 1 && an.Recs? && an == Skim(b, p.qend, U16(b, 6))
    requires Rewrites(drop, anyDefang, isAny) && an.next <= |b|
    requires Kept(an.recs, drop, anyDefang && isAny) == an.recs && Rebuilt(b, p.qend, an.recs, an.next) == b
    ensures FilterWire(b, drop, anyDefang, isAny) == Some(b)
  {}

  lemma RewriteTwice(a: Message, p: Parsed, an: Skimmed, drop: seq<u16>, anyDefang: bool, isAny: bool, kept: seq<Rec>, b: Message)
    requires p == ParseQuestion(a) && p.Parsed? && PlainName(a, HEADER_LEN) && U16(a, 4) == 1
    requires an == Skim(a, p.qend, U16(a, 6)) && an.Recs? && p.qend <= an.next <= |a|
    requires Rewrites(drop, anyDefang, isAny) && kept == Kept(an.recs, drop, anyDefang && isAny)
    requires b == Rebuilt(a, p.qend, kept, an.next)
    ensures FilterWire(b, drop, anyDefang, isAny) == Some(b)
  {
    var to := RebuiltShape(a, p, an, drop, anyDefang && isAny, kept);
    var answers := AnswersPart(a, b, p.qend, kept, to, Finder(b));
    RebuiltQuestion(a, p, kept, an.next, b, to);
    KeptTwice(an.recs, drop, anyDefang && isAny, p.qend);
    RebuiltTwice(a, p.qend, kept, b, answers, to);
    FilterAgain(b, p, Recs(answers, to), drop, anyDefang, isAny);
  }

  /** Filtering again changes no byte, for every response with a plain question that can be filtered at
      all, wherever the names behind the answers point (for ASCII owner names; see DnsName on folding). */
  lemma FilterTwice(a: Message, drop: seq<u16>, anyDefang: bool, isAny: bool, b: Message)
    requires PlainName(a, HEADER_LEN) && FilterWire(a, drop, anyDefang, isAny) == Some(b)
    ensures FilterWire(b, drop, anyDefang, isAny) == Some(b)
  {
    if Rewrites(drop, anyDefang, isAny) {
      var p := ParseQuestion(a);
      var an := Skim(a, p.qend, U16(a, 6));
      FilterIsRebuilt(a, p, an, drop, anyDefang, isAny, b);
      RewriteTwice(a, p, an, drop, anyDefang, isAny, Kept(an.recs, drop, anyDefang && isAny), b);
    } else {
      PassedThrough(a, drop, anyDefang, isAny);
    }
  }

  // ---- Why the names behind the answers must be movable ----

  lemma JumpPastEnd(a: Message, pa: nat, b: Message, pb: nat)
    requires var m := MarkAt(a, Stop(a, pa)); m.Jump? && m.to >= |b| && Same(a, pa, b, pb, Stop(a, pa) + 2 - pa)
    ensures RecordAt(b, pb) == NoRec
  {
    CutNameLost(a, pa, b, pb, Stop(a, pa) + 2 - pa);
  }

  lemma BrokenWalk(one: nat -> OneRec, pos: nat, nscount: nat, arcount: nat)
    requires nscount > 0 && one(pos) == NoRec
    ensures WalkBy(one, pos, 0, nscount, arcount) == NoWalk
  {}

  lemma BrokenVerdict(query: Message, a: Message, b: Message)
    requires Validate(query, a) == Accepted && ParseQuestion(b) == ParseQuestion(a) && U16(b, 4) == 1
    requires b[2] == a[2] && b[3] == a[3] && Sections(b, ParseQuestion(a).qend) == NoWalk
    ensures Validate(query, b) == Rejected(AnswerWalk)
  {}

  /** A pointer into the dropped answers breaks the message: when every answer is dropped and the first
      authority name points past the new end, the rewritten message is no longer accepted. */
  lemma PointerIntoAnswersBreaks(query: Message, a: Message, p: Parsed, w: Walked, drop: seq<u16>, defang: bool, b: Message)
    requires Validate(query, a) == Accepted && p == ParseQuestion(a) && w == Complete(a) && w.Walked?
    requires PlainName(a, HEADER_LEN) && Kept(w.an, drop, defang) == [] && U16(a, 8) > 0
    requires p.Parsed? && p.qend <= w.anEnd <= |a| && b == Rebuilt(a, p.qend, [], w.anEnd)
    requires var m := MarkAt(a, Stop(a, w.anEnd)); m.Jump? && m.to >= |b|
    ensures Validate(query, b) == Rejected(AnswerWalk)
  {
    CompleteParts(a, p, w);
    var to := RebuiltShape(a, p, Recs(w.an, w.anEnd), drop, defang, []);
    assert to == p.qend;
    RebuiltQuestion(a, p, [], w.anEnd, b, to);
    SamePart(a, w.anEnd, b, to, |a| - w.anEnd, 0, Stop(a, w.anEnd) + 2 - w.anEnd);
    JumpPastEnd(a, w.anEnd, b, to);
    BrokenWalk(Finder(b), p.qend, U16(b, 8), U16(b, 10));
    BrokenVerdict(query, a, b);
  }
}
