/** Messages that show what the answer filter does to names that lead into the answers. */
module DnsCases {
  import opened Sequences
  import opened Bytes
  import opened DnsName
  import opened DnsMessage
  import opened DnsBuild
  import opened DnsFilter

  // ---- Reading small names ----

  lemma RootAt(buf: Message, pos: nat)
    requires pos < |buf| && buf[pos] == 0
    ensures MarkAt(buf, pos) == Root && PlainName(buf, pos) && PlainEnd(buf, pos) == pos + 1 && LabelsAt(buf, pos) == []
    ensures ReadName(buf, pos) == Reading([], pos + 1)
  {
    ReadPlainName(buf, pos, MAX_POINTER_JUMPS);
  }

  /** A one-byte label, then the root. */
  lemma LetterAt(buf: Message, pos: nat, c: byte)
    requires pos + 2 < |buf| && buf[pos] == 1 && buf[pos + 1] == c && buf[pos + 2] == 0
    ensures PlainName(buf, pos) && PlainEnd(buf, pos) == pos + 3 && LabelsAt(buf, pos) == [[c]]
    ensures ReadName(buf, pos) == Reading(Lower([c]), pos + 3)
  {
    assert buf[pos + 1..pos + 2] == [c];
    assert MarkAt(buf, pos) == Label([c], pos + 2);
    RootAt(buf, pos + 2);
    MarksForward(buf);
    assert Spelled(Marks(buf), pos + 2, [], pos + 2);
    assert [[c]][1..] == [];
    SpelledStops(Marks(buf), |buf|, pos, [[c]], pos + 2);
    ReadPlainName(buf, pos, MAX_POINTER_JUMPS);
    assert Spell([], [[c]]) == [c];
  }

  /** A one-byte label, then a pointer to a plain name. */
  lemma LetterThenPointer(buf: Message, pos: nat, c: byte, to: byte)
    requires pos + 3 < |buf| && buf[pos] == 1 && buf[pos + 1] == c && buf[pos + 2] == 0xC0 && buf[pos + 3] == to
    requires to < |buf| && PlainName(buf, to)
    ensures LocalName(buf, pos, to, |buf|)
    ensures ReadRaw(buf, pos, MAX_POINTER_JUMPS) == Bounded(Spell([c], LabelsAt(buf, to)), pos + 4)
  {
    assert buf[pos + 1..pos + 2] == [c];
    assert MarkAt(buf, pos) == Label([c], pos + 2) && MarkAt(buf, pos + 2) == Jump(to);
    MarksForward(buf);
    assert Spelled(Marks(buf), pos + 2, [], pos + 2);
    assert [[c]][1..] == [];
    SpelledStops(Marks(buf), |buf|, pos, [[c]], pos + 2);
    ReadPointedName(buf, pos, to, |buf|, MAX_POINTER_JUMPS);
    assert Spell([], [[c]]) == [c];
  }

  /** One record with the root as its owner. */
  lemma RootRecord(buf: Message, pos: nat, rtype: u16, ttl: u32, len: u16)
    requires Holds(buf, pos, [0] + Fixed(rtype, CLASS_IN, ttl, len)) && pos + 11 + len <= |buf|
    ensures RecordAt(buf, pos) == OneRec(Rec([], rtype, CLASS_IN, ttl, len, pos + 11), pos + 11 + len)
  {
    HoldsBoth(buf, pos, [0], Fixed(rtype, CLASS_IN, ttl, len));
    HoldsAt(buf, pos, [0], 0);
    RootAt(buf, pos);
    FixedRead(buf, pos + 1, rtype, CLASS_IN, ttl, len);
  }

  /** A question for the root, CNAME records. */
  const ROOT_QUESTION: seq<byte> := [0, 0, 5, 0, 1]

  function Head(ancount: byte, nscount: byte): (r: seq<byte>)
    ensures |r| == HEADER_LEN
  {
    [0, 7, 128, 0, 0, 1, 0, ancount, 0, nscount, 0, 0]
  }

  lemma RootQuestion(msg: Message, ancount: byte, nscount: byte, rest: seq<byte>)
    requires msg == Head(ancount, nscount) + ROOT_QUESTION + rest
    ensures ParseQuestion(msg) == Parsed(Question(7, [], 5, 1), 17) && PlainName(msg, HEADER_LEN)
    ensures msg[2] == 128 && msg[3] == 0 && U16(msg, 4) == 1
    ensures U16(msg, 6) == ancount && U16(msg, 8) == nscount && U16(msg, 10) == 0
  {
    RootAt(msg, HEADER_LEN);
  }

  /** The query they answer. */
  const ROOT_QUERY: Message := [0, 7, 1, 0, 0, 1, 0, 0, 0, 0, 0, 0] + ROOT_QUESTION

  lemma RootQuery()
    ensures ParseQuestion(ROOT_QUERY) == Parsed(Question(7, [], 5, 1), 17)
  {
    RootAt(ROOT_QUERY, HEADER_LEN);
  }

  lemma Welcome(msg: Message, w: Walked)
    requires ParseQuestion(msg) == Parsed(Question(7, [], 5, 1), 17) && msg[2] == 128 && msg[3] == 0 && U16(msg, 4) == 1
    requires w == Sections(msg, 17) && w.Walked? && w.end == |msg|
    ensures Validate(ROOT_QUERY, msg) == Accepted && Complete(msg) == w
  {
    RootQuery();
  }

  // ---- A kept target that pointed at a dropped answer ----

  /** A TXT record of "b", then a CNAME record of the root whose target is "a" and a pointer to that owner
      name. */
  function ChainRecords(): (r: seq<byte>)
    ensures |r| == 28
  {
    [1, 98, 0] + Fixed(16, CLASS_IN, 0, 0) + ([0] + Fixed(5, CLASS_IN, 0, 4) + [1, 97, 0xC0, 17])
  }

  const CHAIN: Message := Head(2, 0) + ROOT_QUESTION + ChainRecords()

  const TXT_B: Rec := Rec([98], 16, CLASS_IN, 0, 0, 30)
  const CNAME_A: Rec := Rec([], 5, CLASS_IN, 0, 4, 41)

  lemma ChainTxt()
    ensures RecordAt(CHAIN, 17) == OneRec(TXT_B, 30)
  {
    LetterAt(CHAIN, 17, 98);
    var tail := [0] + Fixed(5, CLASS_IN, 0, 4) + [1, 97, 0xC0, 17];
    HoldsIn(Head(2, 0) + ROOT_QUESTION + [1, 98, 0], Fixed(16, CLASS_IN, 0, 0), tail);
    assert CHAIN == Head(2, 0) + ROOT_QUESTION + [1, 98, 0] + Fixed(16, CLASS_IN, 0, 0) + tail;
    FixedRead(CHAIN, 20, 16, CLASS_IN, 0, 0);
    assert Lower([98]) == [98];
  }

  lemma ChainCname()
    ensures RecordAt(CHAIN, 30) == OneRec(CNAME_A, 45)
  {
    var pre := Head(2, 0) + ROOT_QUESTION + [1, 98, 0] + Fixed(16, CLASS_IN, 0, 0);
    HoldsIn(pre, [0] + Fixed(5, CLASS_IN, 0, 4), [1, 97, 0xC0, 17]);
    assert CHAIN == pre + ([0] + Fixed(5, CLASS_IN, 0, 4)) + [1, 97, 0xC0, 17];
    RootRecord(CHAIN, 30, 5, 0, 4);
  }

  lemma ChainTarget()
    ensures ReadName(CHAIN, 41) == Reading([97, 46, 98], 45)
  {
    LetterAt(CHAIN, 17, 98);
    assert CHAIN[41] == 1 && CHAIN[42] == 97 && CHAIN[43] == 0xC0 && CHAIN[44] == 17;
    LetterThenPointer(CHAIN, 41, 97, 17);
    assert [[98]][1..] == [];
    assert Spell([97], [[98]]) == [97, 46, 98];
    assert Lower([97, 46, 98]) == [97, 46, 98];
  }

  lemma SkimTwo(one: nat -> OneRec, pos: nat, x: OneRec, y: OneRec)
    requires one(pos) == x && x.OneRec? && one(x.next) == y && y.OneRec?
    ensures SkimBy(one, pos, 2) == Recs([x.rec, y.rec], y.next)
  {
    assert SkimBy(one, y.next, 0) == Recs([], y.next);
    assert SkimBy(one, x.next, 1) == Recs([y.rec], y.next);
  }

  lemma ChainAccepted()
    ensures ParseQuestion(CHAIN) == Parsed(Question(7, [], 5, 1), 17) && PlainName(CHAIN, HEADER_LEN)
    ensures Complete(CHAIN) == Walked([TXT_B, CNAME_A], 45, [], 45, [], 45)
    ensures Validate(ROOT_QUERY, CHAIN) == Accepted
  {
    RootQuestion(CHAIN, 2, 0, ChainRecords());
    ChainTxt();
    ChainCname();
    SkimTwo(Finder(CHAIN), 17, OneRec(TXT_B, 30), OneRec(CNAME_A, 45));
    Welcome(CHAIN, Walked([TXT_B, CNAME_A], 45, [], 45, [], 45));
  }

  lemma ChainMovable()
    ensures Movable(CHAIN, Parsed(Question(7, [], 5, 1), 17), Walked([TXT_B, CNAME_A], 45, [], 45, [], 45))
  {
    ChainAccepted();
    RootQuestion(CHAIN, 2, 0, ChainRecords());
  }

  lemma ChainKept()
    ensures Kept([TXT_B, CNAME_A], [16], false) == [CNAME_A]
  {
    assert [TXT_B, CNAME_A][1..] == [CNAME_A] && [CNAME_A][1..] == [];
  }

  /** What the filter leaves of it: the CNAME record, where the TXT record stood. */
  const CHAIN_LEFT: Message := Head(1, 0) + ROOT_QUESTION + ([0] + Fixed(5, CLASS_IN, 0, 4) + [1, 97, 0xC0, 17])

  lemma Recount(old_: byte, nscount: byte, count: byte, rest: seq<byte>)
    ensures WithCount(Head(old_, nscount) + ROOT_QUESTION + rest, count) == Head(count, nscount) + ROOT_QUESTION + rest
  {
    var m := WithCount(Head(old_, nscount) + ROOT_QUESTION + rest, count);
    assert m[..12] == Head(count, nscount);
    assert m[12..] == ROOT_QUESTION + rest;
    assert m == m[..12] + m[12..];
  }

  lemma ChainEmitted()
    ensures Emit(CHAIN, [CNAME_A]) == [0] + Fixed(5, CLASS_IN, 0, 4) + [1, 97, 0xC0, 17]
  {
    assert CHAIN[41..45] == [1, 97, 0xC0, 17];
    assert WireName([]) == [0];
    assert [CNAME_A][1..] == [];
    var tail := Fixed(5, CLASS_IN, 0, 4) + [1, 97, 0xC0, 17];
    assert Rewritten(CHAIN, CNAME_A) == [0] + tail;
    assert [0] + tail == [0] + Fixed(5, CLASS_IN, 0, 4) + [1, 97, 0xC0, 17];
  }

  lemma ChainRebuilt()
    ensures Rebuilt(CHAIN, 17, [CNAME_A], 45) == CHAIN_LEFT
  {
    ChainEmitted();
    var tail := [0] + Fixed(5, CLASS_IN, 0, 4) + [1, 97, 0xC0, 17];
    assert CHAIN[..17] == Head(2, 0) + ROOT_QUESTION;
    Recount(2, 0, 1, tail);
    assert CHAIN[45..] == [];
    assert CHAIN_LEFT + [] == CHAIN_LEFT;
  }

  lemma FilterFrom(a: Message, p: Parsed, w: Walked, drop: seq<u16>, kept: seq<Rec>)
    requires p == ParseQuestion(a) && w == Complete(a) && w.Walked? && drop != [] && kept == Kept(w.an, drop, false)
    ensures p.Parsed? && p.qend <= w.anEnd <= |a| && FilterWire(a, drop, false, false) == Some(Rebuilt(a, p.qend, kept, w.anEnd))
  {
    CompleteParts(a, p, w);
    SkimInside(a, p.qend, U16(a, 6));
  }

  lemma ChainFiltered()
    ensures FilterWire(CHAIN, [16], false, false) == Some(CHAIN_LEFT)
  {
    ChainAccepted();
    ChainKept();
    ChainRebuilt();
    FilterFrom(CHAIN, ParseQuestion(CHAIN), Complete(CHAIN), [16], [CNAME_A]);
  }

  lemma ChainLeftTarget()
    ensures ReadName(CHAIN_LEFT, 28) == Reading([97], 32)
  {
    assert CHAIN_LEFT[28] == 1 && CHAIN_LEFT[29] == 97 && CHAIN_LEFT[30] == 0xC0 && CHAIN_LEFT[31] == 17;
    RootAt(CHAIN_LEFT, 17);
    LetterThenPointer(CHAIN_LEFT, 28, 97, 17);
    assert Lower([97]) == [97];
  }

  /** The record survives with its data bytes, and both messages are accepted, but the target it names
      changes from "a.b" to "a": the bytes it pointed at are gone. */
  lemma TargetChanges()
    ensures Validate(ROOT_QUERY, CHAIN) == Accepted && FilterWire(CHAIN, [16], false, false) == Some(CHAIN_LEFT)
    ensures Validate(ROOT_QUERY, CHAIN_LEFT) == Accepted
    ensures AnswerRecords(CHAIN) == Some([TXT_B, CNAME_A])
    ensures AnswerRecords(CHAIN_LEFT) == Some([CNAME_A.(rdataAt := 28)])
    ensures ReadName(CHAIN, 41) == Reading([97, 46, 98], 45) && ReadName(CHAIN_LEFT, 28) == Reading([97], 32)
  {
    ChainAccepted();
    ChainFiltered();
    ChainMovable();
    ChainTarget();
    ChainLeftTarget();
    ChainLeft();
    FilterStaysAccepted(ROOT_QUERY, CHAIN, Parsed(Question(7, [], 5, 1), 17),
                        Walked([TXT_B, CNAME_A], 45, [], 45, [], 45), [16], false, false, CHAIN_LEFT);
  }

  lemma ChainLeft()
    ensures AnswerRecords(CHAIN_LEFT) == Some([CNAME_A.(rdataAt := 28)])
  {
    var tail := [0] + Fixed(5, CLASS_IN, 0, 4) + [1, 97, 0xC0, 17];
    RootQuestion(CHAIN_LEFT, 1, 0, tail);
    HoldsIn(Head(1, 0) + ROOT_QUESTION, [0] + Fixed(5, CLASS_IN, 0, 4), [1, 97, 0xC0, 17]);
    assert CHAIN_LEFT == Head(1, 0) + ROOT_QUESTION + ([0] + Fixed(5, CLASS_IN, 0, 4)) + [1, 97, 0xC0, 17];
    RootRecord(CHAIN_LEFT, 17, 5, 0, 4);
    var rec := CNAME_A.(rdataAt := 28);
    assert Finder(CHAIN_LEFT)(17) == OneRec(rec, 32);
    assert SkimBy(Finder(CHAIN_LEFT), 32, 0) == Recs([], 32);
    assert SkimBy(Finder(CHAIN_LEFT), 17, 1) == Recs([rec], 32);
    Welcome(CHAIN_LEFT, Walked([rec], 32, [], 32, [], 32));
  }

  // ---- An authority name that pointed at a dropped answer ----

  /** A TXT record whose last data byte is zero, then an NS record whose owner is a pointer to that byte. */
  function StrayRecords(): (r: seq<byte>)
    ensures |r| == 25
  {
    [0] + Fixed(16, CLASS_IN, 0, 2) + [0, 0] + ([0xC0, 29] + Fixed(2, CLASS_IN, 0, 0))
  }

  const STRAY: Message := Head(1, 1) + ROOT_QUESTION + StrayRecords()

  const TXT_ROOT: Rec := Rec([], 16, CLASS_IN, 0, 2, 28)
  const NS_ROOT: Rec := Rec([], 2, CLASS_IN, 0, 0, 42)

  lemma StrayTxt()
    ensures RecordAt(STRAY, 17) == OneRec(TXT_ROOT, 30)
  {
    var tail := [0, 0] + ([0xC0, 29] + Fixed(2, CLASS_IN, 0, 0));
    HoldsIn(Head(1, 1) + ROOT_QUESTION, [0] + Fixed(16, CLASS_IN, 0, 2), tail);
    assert STRAY == Head(1, 1) + ROOT_QUESTION + ([0] + Fixed(16, CLASS_IN, 0, 2)) + tail;
    RootRecord(STRAY, 17, 16, 0, 2);
  }

  lemma StrayNs()
    ensures MarkAt(STRAY, 30) == Jump(29) && RecordAt(STRAY, 30) == OneRec(NS_ROOT, 42)
  {
    assert STRAY[29] == 0 && STRAY[30] == 0xC0 && STRAY[31] == 29;
    RootAt(STRAY, 29);
    assert MarkAt(STRAY, 30) == Jump(29);
    assert Stop(STRAY, 30) == 30 && LabelsAt(STRAY, 30) == [];
    ReadPointedName(STRAY, 30, 29, 30, MAX_POINTER_JUMPS);
    var pre := Head(1, 1) + ROOT_QUESTION + ([0] + Fixed(16, CLASS_IN, 0, 2)) + [0, 0] + [0xC0, 29];
    HoldsIn(pre, Fixed(2, CLASS_IN, 0, 0), []);
    assert STRAY == pre + Fixed(2, CLASS_IN, 0, 0) + [];
    FixedRead(STRAY, 32, 2, CLASS_IN, 0, 0);
  }

  lemma StrayAccepted()
    ensures ParseQuestion(STRAY) == Parsed(Question(7, [], 5, 1), 17) && PlainName(STRAY, HEADER_LEN)
    ensures Complete(STRAY) == Walked([TXT_ROOT], 30, [NS_ROOT], 42, [], 42)
    ensures Validate(ROOT_QUERY, STRAY) == Accepted && U16(STRAY, 8) == 1
  {
    RootQuestion(STRAY, 1, 1, StrayRecords());
    StrayTxt();
    StrayNs();
    var one := Finder(STRAY);
    assert one(17) == OneRec(TXT_ROOT, 30) && one(30) == OneRec(NS_ROOT, 42);
    assert SkimBy(one, 30, 0) == Recs([], 30) && SkimBy(one, 42, 0) == Recs([], 42);
    assert SkimBy(one, 17, 1) == Recs([TXT_ROOT], 30) && SkimBy(one, 30, 1) == Recs([NS_ROOT], 42);
    Welcome(STRAY, Walked([TXT_ROOT], 30, [NS_ROOT], 42, [], 42));
  }

  /** An accepted response that is refused once its TXT answer is filtered out. */
  lemma StrayPointerBreaks()
    ensures Validate(ROOT_QUERY, STRAY) == Accepted
    ensures var filtered := FilterWire(STRAY, [16], false, false);
            filtered.Some? && Validate(ROOT_QUERY, filtered.value) == Rejected(AnswerWalk)
  {
    StrayAccepted();
    StrayNs();
    var p, w := ParseQuestion(STRAY), Complete(STRAY);
    assert [TXT_ROOT][1..] == [];
    assert Kept([TXT_ROOT], [16], false) == [];
    FilterFrom(STRAY, p, w, [16], []);
    var b := Rebuilt(STRAY, p.qend, [], w.anEnd);
    assert |b| == 29;
    PointerIntoAnswersBreaks(ROOT_QUERY, STRAY, p, w, [16], false, b);
  }
}
