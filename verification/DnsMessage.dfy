/** DNS messages (section 4.1 of RFC 1035): the question, the record walk, the answer validator and the
    two accessors that must agree with it. */
module DnsMessage {
  import opened Sequences
  import opened Bytes
  import opened DnsName

  const HEADER_LEN: nat := 12
  const CLASS_IN: nat := 1

  type u16 = n: nat | n < 0x1_0000
  type u32 = n: nat | n < 0x1_0000_0000

  function U16(b: Message, i: nat): u16
    requires i + 2 <= |b|
  {
    b[i] as int * 256 + b[i + 1]
  }

  function U32(b: Message, i: nat): u32
    requires i + 4 <= |b|
  {
    U16(b, i) * 0x1_0000 + U16(b, i + 2)
  }

  function U16Bytes(n: u16): (r: seq<byte>)
    ensures |r| == 2
  {
    [n / 256, n % 256]
  }

  function U32Bytes(n: u32): (r: seq<byte>)
    ensures |r| == 4
  {
    U16Bytes(n / 0x1_0000) + U16Bytes(n % 0x1_0000)
  }

  lemma U16Read(b: Message, i: nat, n: u16)
    requires Holds(b, i, U16Bytes(n))
    ensures U16(b, i) == n
  {
    HoldsAt(b, i, U16Bytes(n), 0);
    HoldsAt(b, i, U16Bytes(n), 1);
  }

  lemma U32Read(b: Message, i: nat, n: u32)
    requires Holds(b, i, U32Bytes(n))
    ensures U32(b, i) == n
  {
    HoldsBoth(b, i, U16Bytes(n / 0x1_0000), U16Bytes(n % 0x1_0000));
    U16Read(b, i, n / 0x1_0000);
    U16Read(b, i + 2, n % 0x1_0000);
  }

  // ---- The question ----

  datatype Question = Question(id: u16, qname: Name, qtype: u16, qclass: u16)

  datatype Parsed = NoQuestion | Parsed(q: Question, qend: nat)

  function ParseQuestion(buf: Message): (p: Parsed)
    ensures p.Parsed? ==> HEADER_LEN + 5 <= p.qend <= |buf|
  {
    ReadNameBounds(buf, HEADER_LEN);
    if |buf| < HEADER_LEN || U16(buf, 4) == 0 then NoQuestion
    else
      var name := ReadName(buf, HEADER_LEN);
      if name.NoName? || name.next + 4 > |buf| then NoQuestion
      else Parsed(Question(U16(buf, 0), name.name, U16(buf, name.next), U16(buf, name.next + 2)), name.next + 4)
  }

  // ---- Queries ----

  function QueryHead(id: u16): (r: seq<byte>)
    ensures |r| == HEADER_LEN
  {
    U16Bytes(id) + [1, 0] + [0, 1] + [0, 0, 0, 0, 0, 0]
  }

  function QueryWire(id: u16, n: Name, qtype: u16): Message {
    QueryHead(id) + WireName(n) + (U16Bytes(qtype) + U16Bytes(CLASS_IN))
  }

  method BuildQuery(id: u16, n: Name, qtype: u16) returns (msg: Message)
    ensures msg == QueryWire(id, n, qtype)
  {
    msg := U16Bytes(id);
    msg := msg + [1, 0];
    msg := msg + [0, 1];
    msg := msg + [0, 0, 0, 0, 0, 0];
    msg := WriteName(msg, n);
    msg := msg + (U16Bytes(qtype) + U16Bytes(CLASS_IN));
  }

  lemma QueryHeadFields(id: u16, tail: seq<byte>)
    ensures U16(QueryHead(id) + tail, 0) == id && U16(QueryHead(id) + tail, 4) == 1
  {
    var b := QueryHead(id) + tail;
    assert b[0] == id / 256 && b[1] == id % 256 && b[4] == 0 && b[5] == 1;
  }

  /** What a built query parses to, for every name: the labels actually sent, in lower case; nothing if
      they are too long together. */
  lemma QueryParses(id: u16, n: Name, qtype: u16)
    ensures ParseQuestion(QueryWire(id, n, qtype)) ==
            if |Sent(n)| <= MAX_NAME_LEN
            then Parsed(Question(id, Lower(Sent(n)), qtype, CLASS_IN), |QueryWire(id, n, qtype)|) else NoQuestion
  {
    var head, name, tail := QueryHead(id), WireName(n), U16Bytes(qtype) + U16Bytes(CLASS_IN);
    var msg := QueryWire(id, n, qtype);
    HoldsIn(head, name, tail);
    ReadWritten(msg, HEADER_LEN, n, MAX_POINTER_JUMPS);
    QueryHeadFields(id, name + tail);
    assert msg == head + (name + tail);
    HoldsIn(head + name, tail, []);
    assert msg == head + name + tail + [];
    QueryTail(msg, HEADER_LEN + |name|, qtype);
  }

  lemma QueryTail(msg: Message, at: nat, qtype: u16)
    requires Holds(msg, at, U16Bytes(qtype) + U16Bytes(CLASS_IN))
    ensures at + 4 <= |msg| && U16(msg, at) == qtype && U16(msg, at + 2) == CLASS_IN
  {
    HoldsBoth(msg, at, U16Bytes(qtype), U16Bytes(CLASS_IN));
    U16Read(msg, at, qtype);
    U16Read(msg, at + 2, CLASS_IN);
  }

  /** The header of a built query: recursion desired and nothing else, one question, no records. */
  lemma QueryHeader(id: u16, n: Name, qtype: u16)
    ensures var msg := QueryWire(id, n, qtype);
            && |msg| >= HEADER_LEN && U16(msg, 0) == id && U16(msg, 2) == 0x0100 && U16(msg, 4) == 1
            && U16(msg, 6) == 0 && U16(msg, 8) == 0 && U16(msg, 10) == 0
  {
    var tail := WireName(n) + (U16Bytes(qtype) + U16Bytes(CLASS_IN));
    QueryHeadFields(id, tail);
    assert QueryWire(id, n, qtype) == QueryHead(id) + tail;
    HeadTail(QueryHead(id), tail);
  }

  lemma HeadTail(head: seq<byte>, tail: seq<byte>)
    requires |head| == HEADER_LEN
    ensures U16(head + tail, 2) == U16(head, 2) && U16(head + tail, 6) == U16(head, 6)
    ensures U16(head + tail, 8) == U16(head, 8) && U16(head + tail, 10) == U16(head, 10)
  {}

  /** Two built queries ask the same question of the validator if and only if the names sent differ at
      most in ASCII case. */
  lemma QuestionsMatchIff(a: u16, m: Name, b: u16, n: Name, qtype: u16)
    requires |Sent(m)| <= MAX_NAME_LEN && |Sent(n)| <= MAX_NAME_LEN
    ensures var p, q := ParseQuestion(QueryWire(a, m, qtype)), ParseQuestion(QueryWire(b, n, qtype));
            p.Parsed? && q.Parsed? && (p.q.qname == q.q.qname <==> SameButCase(Sent(m), Sent(n)))
  {
    QueryParses(a, m, qtype);
    QueryParses(b, n, qtype);
    LowerForgetsCase(Sent(m), Sent(n));
  }

  /** A name the query carries unchanged: lower case, no empty label, labels of at most 63 bytes, at most
      255 bytes in all. */
  ghost predicate Carried(n: Name) {
    Lower(n) == n && NoEmptyLabel(n) && ShortSegments(n) && |n| <= MAX_NAME_LEN
  }

  lemma CarriedIsSent(n: Name)
    requires Carried(n)
    ensures Sent(n) == n
  {
    SentExactly(n);
  }

  lemma {:induction false} SentShort(ls: seq<seq<byte>>)
    requires WireLabels(ls) && (forall i :: 0 <= i < |ls| ==> DOT !in ls[i])
    ensures ShortSegments(Join(ls, DOT)) && NoEmptyLabel(Join(ls, DOT))
  {
    if ls != [] {
      SplitJoin(ls, DOT);
      assert forall i :: 0 <= i < |ls| ==> ls[i] != [];
    }
  }

  lemma {:induction false} ClipClean(ls: seq<seq<byte>>)
    requires forall i :: 0 <= i < |ls| ==> DOT !in ls[i]
    ensures forall i :: 0 <= i < |ls| ==> DOT !in ClipAll(ls)[i]
  {
    if ls != [] { ClipClean(ls[1..]); }
  }

  lemma SentIsClean(n: Name)
    ensures ShortSegments(Sent(n)) && NoEmptyLabel(Sent(n))
  {
    SentLabelsFit(n);
    SplitLabels(n, DOT);
    ClipClean(NonEmpty(Split(n, DOT)));
    SentShort(SentLabels(n));
  }

  lemma LowerKeepsShape(n: Name)
    ensures ShortSegments(Lower(n)) <==> ShortSegments(n)
    ensures NoEmptyLabel(Lower(n)) <==> NoEmptyLabel(n)
  {
    LowerSegments(n);
    var a, b := Split(Lower(n), DOT), Split(n, DOT);
    assert forall i :: 0 <= i < |a| ==> (a[i] == [] <==> b[i] == []);
  }

  /** The round trip, exactly: a query for a name parses back to that name if and only if the name is
      carried unchanged. */
  lemma QueryRoundTrip(id: u16, n: Name, qtype: u16)
    ensures var msg := QueryWire(id, n, qtype);
            ParseQuestion(msg) == Parsed(Question(id, n, qtype, CLASS_IN), |msg|) <==> Carried(n)
  {
    QueryParses(id, n, qtype);
    if Carried(n) { CarriedIsSent(n); }
    if |Sent(n)| <= MAX_NAME_LEN && Lower(Sent(n)) == n {
      SentIsClean(n);
      LowerKeepsShape(Sent(n));
      LowerTwice(Sent(n));
    }
  }

  // ---- Records ----

  /** One record's shape; its data stays in the buffer. */
  datatype Rec = Rec(name: Name, rtype: u16, rclass: u16, ttl: u32, rdlength: u16, rdataAt: nat)

  datatype OneRec = NoRec | OneRec(rec: Rec, next: nat)

  /** The record whose owner name was read. */
  function RecordFrom(buf: Message, name: Reading): OneRec {
    if name.NoName? || name.next + 10 > |buf| then NoRec
    else
      var p := name.next;
      var rec := Rec(name.name, U16(buf, p), U16(buf, p + 2), U32(buf, p + 4), U16(buf, p + 8), p + 10);
      if rec.rdataAt + rec.rdlength > |buf| then NoRec else OneRec(rec, rec.rdataAt + rec.rdlength)
  }

  function RecordAt(buf: Message, pos: nat): OneRec { RecordFrom(buf, ReadName(buf, pos)) }

  datatype Skimmed = NoRecs | Recs(recs: seq<Rec>, next: nat)

  /** Skim `count` records, each found by `one`. */
  function SkimBy(one: nat -> OneRec, pos: nat, count: nat): Skimmed
    decreases count
  {
    if count == 0 then Recs([], pos)
    else
      var first := one(pos);
      if first.NoRec? then NoRecs
      else
        var rest := SkimBy(one, first.next, count - 1);
        if rest.NoRecs? then NoRecs else Recs([first.rec] + rest.recs, rest.next)
  }

  function Finder(buf: Message): nat -> OneRec { (pos: nat) => RecordAt(buf, pos) }

  function Skim(buf: Message, pos: nat, count: nat): Skimmed { SkimBy(Finder(buf), pos, count) }

  /** The whole walk is the records so far, then the rest. */
  ghost predicate SkimsOn(whole: Skimmed, sofar: seq<Rec>, rest: Skimmed) {
    whole == if rest.NoRecs? then NoRecs else Recs(sofar + rest.recs, rest.next)
  }

  lemma SkimsStep(one: nat -> OneRec, pos: nat, count: nat, whole: Skimmed, sofar: seq<Rec>)
    requires count > 0 && SkimsOn(whole, sofar, SkimBy(one, pos, count))
    ensures one(pos).NoRec? ==> whole == NoRecs
    ensures one(pos).OneRec? ==> SkimsOn(whole, sofar + [one(pos).rec], SkimBy(one, one(pos).next, count - 1))
  {
    var first := one(pos);
    if first.OneRec? {
      var rest := SkimBy(one, first.next, count - 1);
      if rest.Recs? { assert sofar + ([first.rec] + rest.recs) == sofar + [first.rec] + rest.recs; }
    }
  }

  /** `one` finds the records of the buffer. */
  ghost predicate Finds(one: nat -> OneRec, buf: Message) {
    forall p: nat {:trigger RecordAt(buf, p)} :: one(p) == RecordAt(buf, p)
  }

  lemma FinderFinds(buf: Message)
    ensures Finds(Finder(buf), buf)
  {}

  /** One record: its owner name, ten fixed bytes, and data that must not run off the end. */
  method ReadRecord(buf: Message, pos: nat, ghost one: nat -> OneRec) returns (r: OneRec)
    requires Finds(one, buf)
    ensures r == one(pos)
  {
    assert one(pos) == RecordAt(buf, pos);
    var name := Read(buf, pos);
    if name.NoName? { return NoRec; }
    var p := name.next;
    if p + 10 > |buf| { return NoRec; }
    var rdlength := U16(buf, p + 8);
    var end := p + 10 + rdlength;
    if end > |buf| { return NoRec; }
    r := OneRec(Rec(name.name, U16(buf, p), U16(buf, p + 2), U32(buf, p + 4), rdlength, p + 10), end);
  }

  /** The record walk. */
  method SkimLoop(buf: Message, start: nat, count: nat, ghost one: nat -> OneRec) returns (r: Skimmed)
    requires Finds(one, buf)
    ensures r == SkimBy(one, start, count)
  {
    var pos: nat, records: seq<Rec> := start, [];
    ghost var whole := SkimBy(one, start, count);
    assert whole.Recs? ==> [] + whole.recs == whole.recs;
    for i := 0 to count
      invariant SkimsOn(whole, records, SkimBy(one, pos, count - i))
    {
      SkimsStep(one, pos, count - i, whole, records);
      var next := ReadRecord(buf, pos, one);
      if next.NoRec? { return NoRecs; }
      records, pos := records + [next.rec], next.next;
    }
    assert records + [] == records;
    r := Recs(records, pos);
  }

  method SkimRecords(buf: Message, start: nat, count: nat) returns (r: Skimmed)
    ensures r == Skim(buf, start, count)
  {
    r := SkimLoop(buf, start, count, Finder(buf));
  }

  lemma {:induction false} SkimCount(one: nat -> OneRec, pos: nat, count: nat)
    ensures SkimBy(one, pos, count).Recs? ==> |SkimBy(one, pos, count).recs| == count
    decreases count
  {
    if count > 0 && one(pos).OneRec? { SkimCount(one, one(pos).next, count - 1); }
  }

  /** The three record sections. */
  datatype Walked = NoWalk | Walked(an: seq<Rec>, anEnd: nat, ns: seq<Rec>, nsEnd: nat, ar: seq<Rec>, end: nat)

  function WalkBy(one: nat -> OneRec, pos: nat, ancount: nat, nscount: nat, arcount: nat): Walked {
    var an := SkimBy(one, pos, ancount);
    if an.NoRecs? then NoWalk
    else
      var ns := SkimBy(one, an.next, nscount);
      if ns.NoRecs? then NoWalk
      else
        var ar := SkimBy(one, ns.next, arcount);
        if ar.NoRecs? then NoWalk else Walked(an.recs, an.next, ns.recs, ns.next, ar.recs, ar.next)
  }

  function Sections(buf: Message, qend: nat): Walked
    requires |buf| >= HEADER_LEN
  {
    WalkBy(Finder(buf), qend, U16(buf, 6), U16(buf, 8), U16(buf, 10))
  }

  // ---- The validator and the accessors ----

  datatype Reason =
    | Unparsed | NotAResponse | Truncated | RcodeFailure | IdMismatch | QuestionMismatch
    | ExtraQuestions | AnswerWalk | TrailingBytes

  datatype Verdict = Accepted | Rejected(why: Reason)

  predicate IsResponse(m: Message)
    requires |m| >= HEADER_LEN
  {
    m[2] >= 128
  }

  predicate IsTruncated(m: Message)
    requires |m| >= HEADER_LEN
  {
    m[2] / 2 % 2 == 1
  }

  function Rcode(m: Message): nat
    requires |m| >= HEADER_LEN
  {
    m[3] % 16
  }

  /** The verdict on a response, given both questions, its header and its sections. */
  function Judge(q: Question, r: Question, flags: byte, code: byte, qdcount: u16, w: Walked, size: nat): Verdict {
    if flags < 128 then Rejected(NotAResponse)
    else if flags / 2 % 2 == 1 then Rejected(Truncated)
    else if code % 16 == 2 || code % 16 == 5 then Rejected(RcodeFailure)
    else if q.id != r.id then Rejected(IdMismatch)
    else if q.qname != r.qname || q.qtype != r.qtype || q.qclass != r.qclass then Rejected(QuestionMismatch)
    else if qdcount != 1 then Rejected(ExtraQuestions)
    else if w.NoWalk? then Rejected(AnswerWalk)
    else if w.end != size then Rejected(TrailingBytes)
    else Accepted
  }

  function Validate(query: Message, response: Message): Verdict {
    var q, r := ParseQuestion(query), ParseQuestion(response);
    if q.NoQuestion? || r.NoQuestion? then Rejected(Unparsed)
    else Judge(q.q, r.q, response[2], response[3], U16(response, 4), Sections(response, r.qend), |response|)
  }

  /** The sections of a response with exactly one question and nothing after them. */
  function Complete(response: Message): Walked {
    var p := ParseQuestion(response);
    if p.NoQuestion? || U16(response, 4) != 1 then NoWalk
    else
      var w := Sections(response, p.qend);
      if w.NoWalk? || w.end != |response| then NoWalk else w
  }

  function AnswerRecords(response: Message): Option<seq<Rec>> {
    var w := Complete(response);
    if w.NoWalk? then None else Some(w.an)
  }

  function AuthorityRecords(response: Message): Option<seq<Rec>> {
    var w := Complete(response);
    if w.NoWalk? then None else Some(w.ns)
  }

  /** The validator: header, both questions, then its own walk over the three sections. */
  method ValidateResponse(query: Message, response: Message) returns (v: Verdict)
    ensures v == Validate(query, response)
  {
    var q := ParseQuestion(query);
    if q.NoQuestion? { return Rejected(Unparsed); }
    var r := ParseQuestion(response);
    if r.NoQuestion? { return Rejected(Unparsed); }
    if response[2] < 128 { return Rejected(NotAResponse); }
    if response[2] / 2 % 2 == 1 { return Rejected(Truncated); }
    var rcode := response[3] % 16;
    if rcode == 2 || rcode == 5 { return Rejected(RcodeFailure); }
    if q.q.id != r.q.id { return Rejected(IdMismatch); }
    if q.q.qname != r.q.qname || q.q.qtype != r.q.qtype || q.q.qclass != r.q.qclass {
      return Rejected(QuestionMismatch);
    }
    if U16(response, 4) != 1 { return Rejected(ExtraQuestions); }
    var an := SkimRecords(response, r.qend, U16(response, 6));
    if an.NoRecs? { return Rejected(AnswerWalk); }
    var ns := SkimRecords(response, an.next, U16(response, 8));
    if ns.NoRecs? { return Rejected(AnswerWalk); }
    var ar := SkimRecords(response, ns.next, U16(response, 10));
    if ar.NoRecs? { return Rejected(AnswerWalk); }
    v := if ar.next != |response| then Rejected(TrailingBytes) else Accepted;
  }

  /** The answer accessor, with its own walk. */
  method ReadAnswers(response: Message) returns (r: Option<seq<Rec>>)
    ensures r == AnswerRecords(response)
  {
    var p := ParseQuestion(response);
    if p.NoQuestion? || U16(response, 4) != 1 { return None; }
    var an := SkimRecords(response, p.qend, U16(response, 6));
    if an.NoRecs? { return None; }
    var ns := SkimRecords(response, an.next, U16(response, 8));
    if ns.NoRecs? { return None; }
    var ar := SkimRecords(response, ns.next, U16(response, 10));
    if ar.NoRecs? || ar.next != |response| { return None; }
    r := Some(an.recs);
  }

  /** The authority accessor, with its own walk. */
  method ReadAuthority(response: Message) returns (r: Option<seq<Rec>>)
    ensures r == AuthorityRecords(response)
  {
    var p := ParseQuestion(response);
    if p.NoQuestion? || U16(response, 4) != 1 { return None; }
    var an := SkimRecords(response, p.qend, U16(response, 6));
    if an.NoRecs? { return None; }
    var ns := SkimRecords(response, an.next, U16(response, 8));
    if ns.NoRecs? { return None; }
    var ar := SkimRecords(response, ns.next, U16(response, 10));
    if ar.NoRecs? || ar.next != |response| { return None; }
    r := Some(ns.recs);
  }

  /** The header and question of the response answer the query: not truncated, no failure code, the same
      id and the same question. */
  predicate RepliesTo(query: Message, response: Message) {
    var q, r := ParseQuestion(query), ParseQuestion(response);
    && q.Parsed? && r.Parsed? && IsResponse(response) && !IsTruncated(response)
    && Rcode(response) != 2 && Rcode(response) != 5 && q.q == r.q
  }

  /** The validator and the two accessors never part: whatever the query, a response is accepted if and
      only if its header and question answer it and both accessors yield records. */
  lemma ConsumersAgree(query: Message, response: Message)
    ensures AnswerRecords(response).Some? <==> AuthorityRecords(response).Some?
    ensures Validate(query, response) == Accepted <==> RepliesTo(query, response) && AnswerRecords(response).Some?
  {}

  /** A message without a whole header, or that announces no question, asks nothing: the validator refuses
      it on either side. */
  lemma NothingAsked(m: Message, other: Message)
    requires |m| < 12 || U16(m, 4) == 0
    ensures ParseQuestion(m) == NoQuestion
    ensures Validate(m, other) == Rejected(Unparsed) && Validate(other, m) == Rejected(Unparsed)
  {}

  /** How many of the checks, in their order, the response passes. */
  function ChecksPassed(query: Message, response: Message): nat {
    var q, r := ParseQuestion(query), ParseQuestion(response);
    if q.NoQuestion? || r.NoQuestion? then 0
    else if !IsResponse(response) then 1
    else if IsTruncated(response) then 2
    else if Rcode(response) == 2 || Rcode(response) == 5 then 3
    else if U16(query, 0) != U16(response, 0) then 4
    else if (q.q.qname, q.q.qtype, q.q.qclass) != (r.q.qname, r.q.qtype, r.q.qclass) then 5
    else if U16(response, 4) != 1 then 6
    else if Sections(response, r.qend).NoWalk? then 7
    else if Sections(response, r.qend).end != |response| then 8
    else 9
  }

  /** The reason given is that of the first check that fails: unparsed, not a response, truncated, failure
      code, id, question, question count, record walk, trailing bytes. */
  lemma ReasonIsFirstFailure(query: Message, response: Message)
    ensures Validate(query, response) ==
            match ChecksPassed(query, response)
            case 0 => Rejected(Unparsed)
            case 1 => Rejected(NotAResponse)
            case 2 => Rejected(Truncated)
            case 3 => Rejected(RcodeFailure)
            case 4 => Rejected(IdMismatch)
            case 5 => Rejected(QuestionMismatch)
            case 6 => Rejected(ExtraQuestions)
            case 7 => Rejected(AnswerWalk)
            case 8 => Rejected(TrailingBytes)
            case _ => Accepted
  {}

  /** The records they yield are as many as the header announces. */
  lemma CountsAnnounced(response: Message)
    requires AnswerRecords(response).Some?
    ensures |AnswerRecords(response).value| == U16(response, 6)
    ensures |AuthorityRecords(response).value| == U16(response, 8)
  {
    var p := ParseQuestion(response);
    WalkCounts(Finder(response), p.qend, U16(response, 6), U16(response, 8), U16(response, 10));
  }

  lemma WalkCounts(one: nat -> OneRec, pos: nat, ancount: nat, nscount: nat, arcount: nat)
    ensures var w := WalkBy(one, pos, ancount, nscount, arcount);
            w.Walked? ==> |w.an| == ancount && |w.ns| == nscount && |w.ar| == arcount
  {
    var w := WalkBy(one, pos, ancount, nscount, arcount);
    if w.Walked? {
      SkimCount(one, pos, ancount);
      SkimCount(one, w.anEnd, nscount);
      SkimCount(one, w.nsEnd, arcount);
    }
  }

  // ---- Keeping a question, writing a record ----

  lemma SameU16(a: Message, pa: nat, b: Message, pb: nat, n: nat, i: nat)
    requires Same(a, pa, b, pb, n) && i + 2 <= n
    ensures U16(a, pa + i) == U16(b, pb + i)
  {
    SameAt(a, pa, b, pb, n, i);
    SameAt(a, pa, b, pb, n, i + 1);
  }

  lemma PlainNameKept(a: Message, b: Message, pos: nat)
    requires PlainName(a, pos) && Same(a, pos, b, pos, PlainEnd(a, pos) - pos)
    ensures ReadName(b, pos) == ReadName(a, pos) && PlainName(b, pos) && PlainEnd(b, pos) == PlainEnd(a, pos)
    ensures ReadName(a, pos).Reading? ==> ReadName(a, pos).next == PlainEnd(a, pos)
    ensures LabelsAt(b, pos) == LabelsAt(a, pos)
  {
    PlainStands(a, pos, b, pos);
    ReadPlainName(a, pos, MAX_POINTER_JUMPS);
    ReadPlainName(b, pos, MAX_POINTER_JUMPS);
  }

  /** A plain question survives any message that starts with the same question bytes and id. */
  lemma QuestionKept(a: Message, b: Message)
    requires ParseQuestion(a).Parsed? && PlainName(a, HEADER_LEN)
    requires Same(a, HEADER_LEN, b, HEADER_LEN, ParseQuestion(a).qend - HEADER_LEN)
    requires U16(b, 0) == U16(a, 0) && U16(b, 4) != 0
    ensures ParseQuestion(b) == ParseQuestion(a) && PlainName(b, HEADER_LEN)
    ensures PlainEnd(a, HEADER_LEN) + 4 == ParseQuestion(a).qend && LabelsAt(b, HEADER_LEN) == LabelsAt(a, HEADER_LEN)
    ensures PlainEnd(b, HEADER_LEN) == PlainEnd(a, HEADER_LEN)
  {
    var n := ParseQuestion(a).qend - HEADER_LEN;
    PlainQuestionEnd(a);
    SamePart(a, HEADER_LEN, b, HEADER_LEN, n, 0, n - 4);
    PlainNameKept(a, b, HEADER_LEN);
    SameU16(a, HEADER_LEN, b, HEADER_LEN, n, n - 4);
    SameU16(a, HEADER_LEN, b, HEADER_LEN, n, n - 2);
  }

  lemma PlainQuestionEnd(a: Message)
    requires ParseQuestion(a).Parsed? && PlainName(a, HEADER_LEN)
    ensures PlainEnd(a, HEADER_LEN) + 4 == ParseQuestion(a).qend
  {
    ReadPlainName(a, HEADER_LEN, MAX_POINTER_JUMPS);
  }

  /** The ten bytes between a record's owner name and its data. */
  function Fixed(rtype: u16, rclass: u16, ttl: u32, rdlength: u16): (r: seq<byte>)
    ensures |r| == 10
  {
    U16Bytes(rtype) + (U16Bytes(rclass) + (U32Bytes(ttl) + U16Bytes(rdlength)))
  }

  /** Type, class, time to live and length, each most significant byte first. */
  lemma FixedLayout()
    ensures Fixed(0x0102, 0x0304, 0x0506_0708, 0x090A) == [1, 2, 3, 4, 5, 6, 7, 8, 9, 10]
  {}

  lemma FixedRead(buf: Message, p: nat, rtype: u16, rclass: u16, ttl: u32, rdlength: u16)
    requires Holds(buf, p, Fixed(rtype, rclass, ttl, rdlength))
    ensures U16(buf, p) == rtype && U16(buf, p + 2) == rclass && U32(buf, p + 4) == ttl && U16(buf, p + 8) == rdlength
  {
    HoldsBoth(buf, p, U16Bytes(rtype), U16Bytes(rclass) + (U32Bytes(ttl) + U16Bytes(rdlength)));
    HoldsBoth(buf, p + 2, U16Bytes(rclass), U32Bytes(ttl) + U16Bytes(rdlength));
    HoldsBoth(buf, p + 4, U32Bytes(ttl), U16Bytes(rdlength));
    U16Read(buf, p, rtype);
    U16Read(buf, p + 2, rclass);
    U32Read(buf, p + 4, ttl);
    U16Read(buf, p + 8, rdlength);
  }

  /** A record written after a readable owner name is found, field by field. */
  lemma RecordFound(buf: Message, pos: nat, name: Name, p: nat, rtype: u16, rclass: u16, ttl: u32, data: seq<byte>)
    requires ReadName(buf, pos) == Reading(name, p) && |data| < 0x1_0000
    requires Holds(buf, p, Fixed(rtype, rclass, ttl, |data|) + data)
    ensures RecordAt(buf, pos) == OneRec(Rec(name, rtype, rclass, ttl, |data|, p + 10), p + 10 + |data|)
    ensures Holds(buf, p + 10, data)
  {
    HoldsBoth(buf, p, Fixed(rtype, rclass, ttl, |data|), data);
    FixedRead(buf, p, rtype, rclass, ttl, |data|);
  }
}
