/** Responses made up on the spot: the denials, and the address answers whose owner names point back at
    the question. */
module DnsBuild {
  import opened Sequences
  import opened Bytes
  import opened DnsName
  import opened DnsMessage

  const TYPE_A: u16 := 1
  const TYPE_AAAA: u16 := 28
  const NOERROR: nat := 0
  const SERVFAIL: nat := 2
  const NXDOMAIN: nat := 3

  function SetHigh(b: byte): byte { if b >= 128 then b else b + 128 }

  /** The question echoed as a response: QR and RA set, the code in the low nibble, one question and no
      records announced. */
  function Canvas(query: Message, rcode: nat): (r: Option<Message>)
    requires rcode < 16
    ensures r.Some? ==> ParseQuestion(query).Parsed? && |r.value| == ParseQuestion(query).qend >= HEADER_LEN
  {
    var p := ParseQuestion(query);
    if p.NoQuestion? then None
    else
      Some(query[..p.qend][2 := SetHigh(query[2])][3 := SetHigh(query[3]) / 16 * 16 + rcode]
           [4 := 0][5 := 1][6 := 0][7 := 0][8 := 0][9 := 0][10 := 0][11 := 0])
  }

  /** Echo the question, byte by byte as a response. */
  method BuildCanvas(query: Message, rcode: nat) returns (r: Option<Message>)
    requires rcode < 16
    ensures r == Canvas(query, rcode)
  {
    var p := ParseQuestion(query);
    if p.NoQuestion? { return None; }
    var resp := query[..p.qend];
    resp := resp[2 := SetHigh(resp[2])];
    resp := resp[3 := SetHigh(resp[3]) / 16 * 16 + rcode];
    resp := resp[4 := 0];
    resp := resp[5 := 1];
    resp := resp[6 := 0][7 := 0];
    resp := resp[8 := 0][9 := 0];
    resp := resp[10 := 0][11 := 0];
    r := Some(resp);
  }

  lemma HighBit(b: byte)
    ensures SetHigh(b) == b % 128 + 128 && SetHigh(b) / 2 % 2 == b / 2 % 2 && SetHigh(b) / 16 == 8 + b / 16 % 8
  {
    if b < 128 { assert (b + 128) / 2 == b / 2 + 64 && (b + 128) / 16 == b / 16 + 8; }
  }

  /** The canvas byte by byte. */
  lemma CanvasBytes(query: Message, rcode: nat)
    requires rcode < 16 && Canvas(query, rcode).Some?
    ensures var r := Canvas(query, rcode).value;
            && |r| >= HEADER_LEN && |query| >= HEADER_LEN && r[0] == query[0] && r[1] == query[1]
            && r[2] == SetHigh(query[2]) && r[3] == SetHigh(query[3]) / 16 * 16 + rcode
            && r[4] == 0 && r[5] == 1 && r[6] == 0 && r[7] == 0 && r[8] == 0 && r[9] == 0 && r[10] == 0 && r[11] == 0
  {}

  lemma CanvasFields(query: Message, rcode: nat)
    requires rcode < 16 && Canvas(query, rcode).Some?
    ensures var r := Canvas(query, rcode).value;
            && IsResponse(r) && IsTruncated(r) == IsTruncated(query) && Rcode(r) == rcode
            && r[2] == query[2] % 128 + 128 && r[3] == 128 + query[3] / 16 % 8 * 16 + rcode
            && U16(r, 0) == U16(query, 0) && U16(r, 4) == 1
            && U16(r, 6) == 0 && U16(r, 8) == 0 && U16(r, 10) == 0
  {
    CanvasBytes(query, rcode);
    HighBit(query[2]);
    HighBit(query[3]);
  }

  lemma CanvasQuestion(query: Message, rcode: nat)
    requires rcode < 16 && Canvas(query, rcode).Some?
    ensures var p := ParseQuestion(query);
            p.Parsed? && Same(query, HEADER_LEN, Canvas(query, rcode).value, HEADER_LEN, p.qend - HEADER_LEN)
  {
    var r, qend := Canvas(query, rcode).value, ParseQuestion(query).qend;
    SameSlice(query, HEADER_LEN, r, HEADER_LEN, qend - HEADER_LEN);
  }

  /** A response made by appending records to a canvas keeps the question. */
  lemma EchoKeepsQuestion(query: Message, rcode: nat, resp: Message)
    requires rcode < 16 && Canvas(query, rcode).Some? && PlainName(query, HEADER_LEN)
    requires |resp| >= |Canvas(query, rcode).value|
    requires Same(query, HEADER_LEN, resp, HEADER_LEN, ParseQuestion(query).qend - HEADER_LEN)
    requires U16(resp, 0) == U16(query, 0) && U16(resp, 4) == 1
    ensures ParseQuestion(resp) == ParseQuestion(query) && PlainName(resp, HEADER_LEN)
    ensures PlainEnd(resp, HEADER_LEN) + 4 == ParseQuestion(query).qend
  {
    QuestionKept(query, resp);
  }

  lemma EmptyWalk(one: nat -> OneRec, pos: nat)
    ensures WalkBy(one, pos, 0, 0, 0) == Walked([], pos, [], pos, [], pos)
  {}

  /** The denials, exactly. A non-existence answer to a query with a plain question is accepted unless the
      query had its truncation bit set; a server failure is never accepted. */
  lemma Denials(query: Message)
    requires ParseQuestion(query).Parsed? && PlainName(query, HEADER_LEN)
    ensures Canvas(query, NXDOMAIN).Some? && Canvas(query, SERVFAIL).Some?
    ensures Rcode(Canvas(query, NXDOMAIN).value) == 3 && Rcode(Canvas(query, SERVFAIL).value) == 2
    ensures Validate(query, Canvas(query, NXDOMAIN).value) ==
            if IsTruncated(query) then Rejected(Truncated) else Accepted
    ensures Validate(query, Canvas(query, SERVFAIL).value) ==
            if IsTruncated(query) then Rejected(Truncated) else Rejected(RcodeFailure)
  {
    CanvasFields(query, NXDOMAIN);
    CanvasFields(query, SERVFAIL);
    DenialVerdict(query, NXDOMAIN);
    DenialVerdict(query, SERVFAIL);
  }

  lemma DenialVerdict(query: Message, rcode: nat)
    requires rcode < 16 && Canvas(query, rcode).Some? && PlainName(query, HEADER_LEN)
    ensures Validate(query, Canvas(query, rcode).value) ==
            if IsTruncated(query) then Rejected(Truncated)
            else if rcode == 2 || rcode == 5 then Rejected(RcodeFailure) else Accepted
  {
    var r := Canvas(query, rcode).value;
    CanvasFields(query, rcode);
    CanvasQuestion(query, rcode);
    EchoKeepsQuestion(query, rcode, r);
    EmptyWalk(Finder(r), ParseQuestion(query).qend);
  }

  /** The question must not lead outside itself: one whose pointer goes to or past the end of the question
      is cut off from its name, and the echo cannot be parsed. */
  lemma CutQuestionFails(query: Message, rcode: nat)
    requires rcode < 16 && Canvas(query, rcode).Some?
    requires var m := MarkAt(query, Stop(query, HEADER_LEN)); m.Jump? && m.to >= ParseQuestion(query).qend
    ensures Validate(query, Canvas(query, rcode).value) == Rejected(Unparsed)
  {
    var r, stop := Canvas(query, rcode).value, Stop(query, HEADER_LEN);
    PointedEnd(query, HEADER_LEN, MAX_POINTER_JUMPS);
    CanvasQuestion(query, rcode);
    SamePart(query, HEADER_LEN, r, HEADER_LEN, ParseQuestion(query).qend - HEADER_LEN, 0, stop + 2 - HEADER_LEN);
    CutStops(query, HEADER_LEN, r, HEADER_LEN);
    StopsBroken(r, HEADER_LEN, MAX_POINTER_JUMPS);
  }

  /** Such a query: the asked name is a pointer to a root byte behind the question. */
  lemma CutQuestionHappens(query: Message)
    requires query == [0, 7, 1, 0, 0, 1, 0, 0, 0, 0, 0, 0] + [0xC0, 18, 0, 1, 0, 1] + [0]
    ensures Canvas(query, NXDOMAIN).Some? && Validate(query, Canvas(query, NXDOMAIN).value) == Rejected(Unparsed)
  {
    assert |query| == 19 && query[4] == 0 && query[5] == 1 && query[12] == 0xC0 && query[13] == 18 && query[18] == 0;
    assert MarkAt(query, 12) == Jump(18) && MarkAt(query, 18) == Root;
    assert Stop(query, 12) == 12 && Stop(query, 18) == 18;
    ReadPointedName(query, 12, 18, 19, MAX_POINTER_JUMPS);
    assert LabelsAt(query, 12) == [] && LabelsAt(query, 18) == [];
    CutQuestionFails(query, NXDOMAIN);
  }

  // ---- Address answers ----

  datatype Ip = V4(octets: seq<byte>) | V6(octets: seq<byte>) {
    predicate Valid() { |octets| == if V4? then 4 else 16 }
    function Type(): u16 { if V4? then TYPE_A else TYPE_AAAA }
  }

  ghost predicate AllValid(ips: seq<Ip>) { forall i :: 0 <= i < |ips| ==> ips[i].Valid() }

  /** One answer: a pointer to the question name, the fixed fields, the address. */
  function AddressAnswer(ip: Ip, ttl: u32): (r: seq<byte>)
    requires ip.Valid()
    ensures |r| == 12 + |ip.octets|
  {
    [0xC0, 0x0C] + (Fixed(ip.Type(), CLASS_IN, ttl, |ip.octets|) + ip.octets)
  }

  function Answers(ips: seq<Ip>, ttl: u32): seq<byte>
    requires AllValid(ips)
  {
    if ips == [] then [] else AddressAnswer(ips[0], ttl) + Answers(ips[1..], ttl)
  }

  /** The response: the canvas with its answer count, then the answers. The count is 16 bits wide. */
  function WithCount(m: Message, count: nat): (r: Message)
    requires |m| >= HEADER_LEN
    ensures |r| == |m|
  {
    m[6 := count % 0x1_0000 / 256][7 := count % 256]
  }

  function AddressWire(query: Message, ips: seq<Ip>, ttl: u32): Option<Message>
    requires AllValid(ips)
  {
    var canvas := Canvas(query, NOERROR);
    if canvas.None? then None else Some(WithCount(canvas.value + Answers(ips, ttl), |ips|))
  }

  method BuildAddressResponse(query: Message, ips: seq<Ip>, ttl: u32) returns (r: Option<Message>)
    requires AllValid(ips)
    ensures r == AddressWire(query, ips, ttl)
  {
    var canvas := BuildCanvas(query, NOERROR);
    if canvas.None? { return None; }
    var resp := canvas.value;
    assert ips[0..] == ips;
    for i := 0 to |ips|
      invariant resp + Answers(ips[i..], ttl) == canvas.value + Answers(ips, ttl)
      invariant |resp| >= HEADER_LEN
    {
      assert ips[i..][1..] == ips[i + 1..];
      Regroup(resp, AddressAnswer(ips[i], ttl), Answers(ips[i + 1..], ttl));
      resp := resp + AddressAnswer(ips[i], ttl);
    }
    assert ips[|ips|..] == [] && resp + [] == resp;
    r := Some(WithCount(resp, |ips|));
  }

  /** A sinkhole is the one-address answer that must not be cached. */
  method BuildSinkholeResponse(query: Message, ip: Ip) returns (r: Option<Message>)
    requires ip.Valid()
    ensures r == AddressWire(query, [ip], 0)
  {
    var canvas := BuildCanvas(query, NOERROR);
    if canvas.None? { return None; }
    assert [ip][0] == ip && [ip][1..] == [];
    assert Answers([ip], 0) == AddressAnswer(ip, 0) + Answers([], 0) == AddressAnswer(ip, 0);
    r := Some(WithCount(canvas.value + AddressAnswer(ip, 0), 1));
  }

  /** The records the answers are read back as, the first one at `pos`. */
  function AnswerRecs(ips: seq<Ip>, ttl: u32, name: Name, pos: nat): (r: seq<Rec>)
    requires AllValid(ips)
    ensures |r| == |ips|
    decreases |ips|
  {
    if ips == [] then []
    else [Rec(name, ips[0].Type(), CLASS_IN, ttl, |ips[0].octets|, pos + 12)] +
         AnswerRecs(ips[1..], ttl, name, pos + 12 + |ips[0].octets|)
  }

  /** The question of the buffer is plain and reads as `name`. */
  ghost predicate Asks(buf: Message, name: Name) {
    && PlainName(buf, HEADER_LEN) && HEADER_LEN < |buf|
    && |Spell([], LabelsAt(buf, HEADER_LEN))| <= MAX_NAME_LEN && Lower(Spell([], LabelsAt(buf, HEADER_LEN))) == name
  }

  lemma PointerReads(buf: Message, pos: nat, name: Name)
    requires Asks(buf, name) && Holds(buf, pos, [0xC0, 0x0C])
    ensures ReadName(buf, pos) == Reading(name, pos + 2)
  {
    HoldsAt(buf, pos, [0xC0, 0x0C], 0);
    HoldsAt(buf, pos, [0xC0, 0x0C], 1);
    assert MarkAt(buf, pos) == Jump(HEADER_LEN);
    StandsAt(buf, pos);
    assert Stop(buf, pos) == pos && LabelsAt(buf, pos) == [];
    ReadPointedName(buf, pos, HEADER_LEN, |buf|, MAX_POINTER_JUMPS);
  }

  lemma AnswerFound(buf: Message, pos: nat, ip: Ip, ttl: u32, name: Name, one: nat -> OneRec)
    requires Asks(buf, name) && ip.Valid() && Holds(buf, pos, AddressAnswer(ip, ttl)) && Finds(one, buf)
    ensures one(pos) == OneRec(Rec(name, ip.Type(), CLASS_IN, ttl, |ip.octets|, pos + 12), pos + 12 + |ip.octets|)
    ensures Holds(buf, pos + 12, ip.octets)
  {
    HoldsBoth(buf, pos, [0xC0, 0x0C], Fixed(ip.Type(), CLASS_IN, ttl, |ip.octets|) + ip.octets);
    PointerReads(buf, pos, name);
    RecordFound(buf, pos, name, pos + 2, ip.Type(), CLASS_IN, ttl, ip.octets);
    assert one(pos) == RecordAt(buf, pos);
  }

  function AnswerRec(ip: Ip, ttl: u32, name: Name, pos: nat): OneRec
    requires ip.Valid()
  {
    OneRec(Rec(name, ip.Type(), CLASS_IN, ttl, |ip.octets|, pos + 12), pos + 12 + |ip.octets|)
  }

  /** The answers are found one after another, up to `end`. */
  ghost predicate AnswersStand(one: nat -> OneRec, pos: nat, ips: seq<Ip>, ttl: u32, name: Name, end: nat)
    requires AllValid(ips)
    decreases |ips|
  {
    if ips == [] then pos == end
    else one(pos) == AnswerRec(ips[0], ttl, name, pos) &&
         AnswersStand(one, pos + 12 + |ips[0].octets|, ips[1..], ttl, name, end)
  }

  lemma {:induction false} AnswersWritten(buf: Message, pos: nat, ips: seq<Ip>, ttl: u32, name: Name, one: nat -> OneRec)
    requires Asks(buf, name) && AllValid(ips) && Holds(buf, pos, Answers(ips, ttl)) && Finds(one, buf)
    ensures AnswersStand(one, pos, ips, ttl, name, pos + |Answers(ips, ttl)|)
    decreases |ips|
  {
    if ips != [] {
      HoldsBoth(buf, pos, AddressAnswer(ips[0], ttl), Answers(ips[1..], ttl));
      AnswerFound(buf, pos, ips[0], ttl, name, one);
      AnswersWritten(buf, pos + 12 + |ips[0].octets|, ips[1..], ttl, name, one);
    }
  }

  lemma {:induction false} AnswersSkimmed(one: nat -> OneRec, pos: nat, ips: seq<Ip>, ttl: u32, name: Name, end: nat)
    requires AllValid(ips) && AnswersStand(one, pos, ips, ttl, name, end)
    ensures SkimBy(one, pos, |ips|) == Recs(AnswerRecs(ips, ttl, name, pos), end)
    decreases |ips|
  {
    if ips != [] { AnswersSkimmed(one, pos + 12 + |ips[0].octets|, ips[1..], ttl, name, end); }
  }

  lemma AnswersFound(buf: Message, pos: nat, ips: seq<Ip>, ttl: u32, name: Name, one: nat -> OneRec)
    requires Asks(buf, name) && AllValid(ips) && Holds(buf, pos, Answers(ips, ttl)) && Finds(one, buf)
    ensures SkimBy(one, pos, |ips|) == Recs(AnswerRecs(ips, ttl, name, pos), pos + |Answers(ips, ttl)|)
  {
    AnswersWritten(buf, pos, ips, ttl, name, one);
    AnswersSkimmed(one, pos, ips, ttl, name, pos + |Answers(ips, ttl)|);
  }

  lemma {:induction false} AnswersHeld(buf: Message, pos: nat, ips: seq<Ip>, ttl: u32, name: Name, i: nat)
    requires AllValid(ips) && Holds(buf, pos, Answers(ips, ttl)) && i < |ips|
    ensures var rec := AnswerRecs(ips, ttl, name, pos)[i];
            && rec.name == name && rec.rtype == ips[i].Type() && rec.rclass == CLASS_IN && rec.ttl == ttl
            && rec.rdlength == |ips[i].octets| && Holds(buf, rec.rdataAt, ips[i].octets)
    decreases |ips|
  {
    HoldsBoth(buf, pos, AddressAnswer(ips[0], ttl), Answers(ips[1..], ttl));
    if i == 0 {
      var fixed := Fixed(ips[0].Type(), CLASS_IN, ttl, |ips[0].octets|);
      HoldsBoth(buf, pos, [0xC0, 0x0C], fixed + ips[0].octets);
      HoldsBoth(buf, pos + 2, fixed, ips[0].octets);
    } else {
      AnswersHeld(buf, pos + 12 + |ips[0].octets|, ips[1..], ttl, name, i - 1);
    }
  }

  /** The first `k` answers are found when fewer are announced than written. */
  lemma AnswersPrefix(buf: Message, pos: nat, ips: seq<Ip>, ttl: u32, k: nat)
    requires AllValid(ips) && k <= |ips| && Holds(buf, pos, Answers(ips, ttl))
    ensures AllValid(ips[..k]) && Holds(buf, pos, Answers(ips[..k], ttl))
    ensures k < |ips| ==> |Answers(ips[..k], ttl)| < |Answers(ips, ttl)|
  {
    AnswersConcat(ips[..k], ips[k..], ttl);
    assert ips[..k] + ips[k..] == ips;
    HoldsBoth(buf, pos, Answers(ips[..k], ttl), Answers(ips[k..], ttl));
  }

  lemma {:induction false} AnswersConcat(a: seq<Ip>, b: seq<Ip>, ttl: u32)
    requires AllValid(a) && AllValid(b)
    ensures AllValid(a + b) && Answers(a + b, ttl) == Answers(a, ttl) + Answers(b, ttl)
    ensures b != [] ==> |Answers(b, ttl)| > 0
  {
    if a == [] {
      assert a + b == b;
    } else {
      AnswersConcat(a[1..], b, ttl);
      assert (a + b)[1..] == a[1..] + b && (a + b)[0] == a[0];
      Regroup(AddressAnswer(a[0], ttl), Answers(a[1..], ttl), Answers(b, ttl));
    }
  }

  lemma WithCountFields(m: Message, count: nat)
    requires |m| >= HEADER_LEN
    ensures var r := WithCount(m, count);
            && U16(r, 6) == count % 0x1_0000 && U16(r, 0) == U16(m, 0) && U16(r, 4) == U16(m, 4)
            && U16(r, 8) == U16(m, 8) && U16(r, 10) == U16(m, 10) && r[2] == m[2] && r[3] == m[3]
            && r[HEADER_LEN..] == m[HEADER_LEN..]
  {
    assert count % 0x1_0000 % 256 == count % 256;
  }

  lemma AddressFields(query: Message, ips: seq<Ip>, ttl: u32)
    requires AllValid(ips) && AddressWire(query, ips, ttl).Some?
    ensures var r, qend := AddressWire(query, ips, ttl).value, ParseQuestion(query).qend;
            && ParseQuestion(query).Parsed? && |r| == qend + |Answers(ips, ttl)|
            && IsResponse(r) && IsTruncated(r) == IsTruncated(query) && Rcode(r) == NOERROR
            && U16(r, 0) == U16(query, 0) && U16(r, 4) == 1
            && U16(r, 6) == |ips| % 0x1_0000 && U16(r, 8) == 0 && U16(r, 10) == 0
  {
    var c := Canvas(query, NOERROR).value;
    CanvasFields(query, NOERROR);
    WithCountFields(c + Answers(ips, ttl), |ips|);
  }

  lemma AddressBody(query: Message, ips: seq<Ip>, ttl: u32)
    requires AllValid(ips) && AddressWire(query, ips, ttl).Some?
    ensures var r, qend := AddressWire(query, ips, ttl).value, ParseQuestion(query).qend;
            && ParseQuestion(query).Parsed?
            && Same(query, HEADER_LEN, r, HEADER_LEN, qend - HEADER_LEN) && Holds(r, qend, Answers(ips, ttl))
  {
    var c, w := Canvas(query, NOERROR).value, Answers(ips, ttl);
    var r, qend := AddressWire(query, ips, ttl).value, ParseQuestion(query).qend;
    WithCountFields(c + w, |ips|);
    CanvasQuestion(query, NOERROR);
    TailSame(c, w, r);
    SameThrough(c, HEADER_LEN, query, HEADER_LEN, r, HEADER_LEN, qend - HEADER_LEN);
  }

  /** A message that ends like `c + w` from the header on. */
  lemma TailSame(c: Message, w: seq<byte>, r: Message)
    requires |c| >= HEADER_LEN && |r| == |c| + |w| && r[HEADER_LEN..] == (c + w)[HEADER_LEN..]
    ensures Same(c, HEADER_LEN, r, HEADER_LEN, |c| - HEADER_LEN) && Holds(r, |c|, w)
  {
    var n := |c| - HEADER_LEN;
    assert (c + w)[HEADER_LEN..] == c[HEADER_LEN..] + w;
    assert r[HEADER_LEN..][..n] == c[HEADER_LEN..] && r[HEADER_LEN..][n..] == w;
    assert r[HEADER_LEN..HEADER_LEN + n] == r[HEADER_LEN..][..n] && r[|c|..|c| + |w|] == r[HEADER_LEN..][n..];
    SameSlice(c, HEADER_LEN, r, HEADER_LEN, n);
    HoldsSlice(r, |c|, w);
  }

  lemma AsksItsQuestion(buf: Message)
    requires ParseQuestion(buf).Parsed? && PlainName(buf, HEADER_LEN)
    ensures Asks(buf, ParseQuestion(buf).q.qname)
  {
    ReadPlainName(buf, HEADER_LEN, MAX_POINTER_JUMPS);
  }

  /** The walk over a buffer that announces the first `k` of the answers it holds, and nothing else. */
  lemma AnswersWalk(buf: Message, pos: nat, ips: seq<Ip>, ttl: u32, name: Name, k: nat, one: nat -> OneRec)
    requires Asks(buf, name) && AllValid(ips) && Holds(buf, pos, Answers(ips, ttl)) && Finds(one, buf) && k <= |ips|
    requires |buf| == pos + |Answers(ips, ttl)|
    ensures var w := WalkBy(one, pos, k, 0, 0);
            && w.Walked? && (k == |ips| ==> w.an == AnswerRecs(ips, ttl, name, pos)) && w.ns == []
            && (w.end == |buf| <==> k == |ips|)
  {
    AnswersPrefix(buf, pos, ips, ttl, k);
    AnswersFound(buf, pos, ips[..k], ttl, name, one);
    if k == |ips| { assert ips[..k] == ips; }
  }

  /** What matters of an address answer: the echoed question, the flags and counts, and the answers. */
  ghost predicate AddressAnswerTo(query: Message, r: Message, ips: seq<Ip>, ttl: u32)
    requires AllValid(ips)
  {
    var p := ParseQuestion(query);
    && p.Parsed? && |r| == p.qend + |Answers(ips, ttl)|
    && IsResponse(r) && IsTruncated(r) == IsTruncated(query) && Rcode(r) == NOERROR
    && U16(r, 0) == U16(query, 0) && U16(r, 4) == 1
    && U16(r, 6) == |ips| % 0x1_0000 && U16(r, 8) == 0 && U16(r, 10) == 0
    && Same(query, HEADER_LEN, r, HEADER_LEN, p.qend - HEADER_LEN) && Holds(r, p.qend, Answers(ips, ttl))
  }

  lemma AddressWireAnswers(query: Message, ips: seq<Ip>, ttl: u32)
    requires AllValid(ips) && ParseQuestion(query).Parsed?
    ensures AddressWire(query, ips, ttl).Some? && AddressAnswerTo(query, AddressWire(query, ips, ttl).value, ips, ttl)
  {
    AddressFields(query, ips, ttl);
    AddressBody(query, ips, ttl);
  }

  lemma AddressQuestion(query: Message, r: Message, ips: seq<Ip>, ttl: u32)
    requires AllValid(ips) && AddressAnswerTo(query, r, ips, ttl) && PlainName(query, HEADER_LEN)
    ensures ParseQuestion(r) == ParseQuestion(query) && Asks(r, ParseQuestion(query).q.qname)
  {
    QuestionKept(query, r);
    AsksItsQuestion(r);
  }

  lemma Wrapped(n: nat, k: nat)
    requires k == n % 0x1_0000
    ensures k <= n && (k == n <==> n < 0x1_0000)
  {}

  lemma AddressSections(r: Message, q: Parsed, ips: seq<Ip>, ttl: u32, k: nat)
    requires AllValid(ips) && q.Parsed? && |r| >= HEADER_LEN && Asks(r, q.q.qname) && k == |ips| % 0x1_0000
    requires Holds(r, q.qend, Answers(ips, ttl)) && |r| == q.qend + |Answers(ips, ttl)|
    requires U16(r, 6) == k && U16(r, 8) == 0 && U16(r, 10) == 0
    ensures var w := Sections(r, q.qend);
            && w.Walked? && (|ips| < 0x1_0000 ==> w.an == AnswerRecs(ips, ttl, q.q.qname, q.qend)) && w.ns == []
            && (w.end == |r| <==> |ips| < 0x1_0000)
  {
    FinderFinds(r);
    Wrapped(|ips|, k);
    AnswersWalk(r, q.qend, ips, ttl, q.q.qname, k, Finder(r));
  }

  /** The verdict on a response that echoes the question and reports no error is that of its sections. */
  lemma EchoVerdict(query: Message, r: Message, q: Parsed, w: Walked)
    requires q.Parsed? && ParseQuestion(query) == q && ParseQuestion(r) == q && w == Sections(r, q.qend) && w.Walked?
    requires IsResponse(r) && Rcode(r) == NOERROR && U16(r, 4) == 1
    ensures Validate(query, r) == if IsTruncated(r) then Rejected(Truncated)
                                  else if w.end != |r| then Rejected(TrailingBytes) else Accepted
    ensures w.end == |r| ==> AnswerRecords(r) == Some(w.an) && AuthorityRecords(r) == Some(w.ns)
  {}

  /** The address answer, exactly. To a query with a plain question and its truncation bit clear it is
      accepted if and only if there are fewer than 65536 addresses (the count wraps beyond that), and then
      the answers read back are those addresses in order, under the asked name. */
  lemma AddressResponse(query: Message, r: Message, ips: seq<Ip>, ttl: u32)
    requires AllValid(ips) && PlainName(query, HEADER_LEN) && AddressWire(query, ips, ttl) == Some(r)
    ensures Validate(query, r) ==
            if IsTruncated(query) then Rejected(Truncated)
            else if |ips| < 0x1_0000 then Accepted else Rejected(TrailingBytes)
    ensures |ips| < 0x1_0000 ==>
              var q := ParseQuestion(query);
              q.Parsed? && AnswerRecords(r) == Some(AnswerRecs(ips, ttl, q.q.qname, q.qend)) &&
              AuthorityRecords(r) == Some([])
  {
    AddressWireAnswers(query, ips, ttl);
    AddressVerdict(query, r, ips, ttl);
  }

  lemma AddressVerdict(query: Message, r: Message, ips: seq<Ip>, ttl: u32)
    requires AllValid(ips) && AddressAnswerTo(query, r, ips, ttl) && PlainName(query, HEADER_LEN)
    ensures Validate(query, r) ==
            if IsTruncated(query) then Rejected(Truncated)
            else if |ips| < 0x1_0000 then Accepted else Rejected(TrailingBytes)
    ensures |ips| < 0x1_0000 ==>
              var q := ParseQuestion(query);
              AnswerRecords(r) == Some(AnswerRecs(ips, ttl, q.q.qname, q.qend)) && AuthorityRecords(r) == Some([])
  {
    var w := AddressWalk(query, r, ips, ttl);
    AddressJudged(query, r, ParseQuestion(query), w, |ips| < 0x1_0000);
  }

  lemma AddressWalk(query: Message, r: Message, ips: seq<Ip>, ttl: u32) returns (w: Walked)
    requires AllValid(ips) && AddressAnswerTo(query, r, ips, ttl) && PlainName(query, HEADER_LEN)
    ensures ParseQuestion(r) == ParseQuestion(query) && w == Sections(r, ParseQuestion(query).qend) && w.Walked?
    ensures |ips| < 0x1_0000 ==> w.an == AnswerRecs(ips, ttl, ParseQuestion(query).q.qname, ParseQuestion(query).qend)
    ensures w.ns == [] && (w.end == |r| <==> |ips| < 0x1_0000)
  {
    var q, k := ParseQuestion(query), |ips| % 0x1_0000;
    AddressQuestion(query, r, ips, ttl);
    AddressSections(r, q, ips, ttl, k);
    w := Sections(r, q.qend);
  }

  lemma AddressJudged(query: Message, r: Message, q: Parsed, w: Walked, fits: bool)
    requires q.Parsed? && ParseQuestion(query) == q && ParseQuestion(r) == q && w == Sections(r, q.qend) && w.Walked?
    requires IsResponse(r) && Rcode(r) == NOERROR && U16(r, 4) == 1 && IsTruncated(r) == IsTruncated(query)
    requires w.end == |r| <==> fits
    ensures Validate(query, r) == if IsTruncated(query) then Rejected(Truncated)
                                  else if fits then Accepted else Rejected(TrailingBytes)
    ensures fits ==> AnswerRecords(r) == Some(w.an) && AuthorityRecords(r) == Some(w.ns)
  {
    EchoVerdict(query, r, q, w);
  }

  /** Each of those records carries the asked name, the type of its address, the time to live, and the
      address bytes. */
  lemma AddressReadBack(query: Message, r: Message, ips: seq<Ip>, ttl: u32, i: nat)
    requires AllValid(ips) && PlainName(query, HEADER_LEN) && AddressWire(query, ips, ttl) == Some(r)
    requires i < |ips| < 0x1_0000
    ensures AnswerRecords(r).Some? && |AnswerRecords(r).value| == |ips| && ParseQuestion(query).Parsed?
    ensures var rec := AnswerRecords(r).value[i];
            && rec.name == ParseQuestion(query).q.qname && rec.rclass == 1
            && (ips[i].V4? ==> rec.rtype == 1 && rec.rdlength == 4) && (ips[i].V6? ==> rec.rtype == 28 && rec.rdlength == 16)
            && rec.ttl == ttl && rec.rdlength == |ips[i].octets| && Holds(r, rec.rdataAt, ips[i].octets)
  {
    AddressResponse(query, r, ips, ttl);
    AddressWireAnswers(query, ips, ttl);
    AnswersHeld(r, ParseQuestion(query).qend, ips, ttl, ParseQuestion(query).q.qname, i);
  }
}
