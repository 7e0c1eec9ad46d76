/** Domain names on the wire: reading one through compression pointers (sections 3.1 and 4.1.4 of RFC
    1035) and writing one without. Names are bytes folded as ASCII; the decoding of other bytes, which can
    lengthen a label, is not part of this model. */
module DnsName {
  import opened Sequences
  import opened Bytes

  const MAX_LABEL_LEN: nat := 63
  const MAX_NAME_LEN: nat := 255
  const MAX_POINTER_JUMPS: nat := 16
  const DOT: byte := 46

  type Message = seq<byte>

  /** A name as the code holds it: dotted, no trailing dot. */
  type Name = seq<byte>

  /** The outcome of reading a name: none, or the name and the position after it. */
  datatype Reading = NoName | Reading(name: Name, next: nat)

  // ---- Case ----

  function LowerByte(b: byte): byte { if 65 <= b <= 90 then b + 32 else b }

  function Lower(n: Name): (r: Name)
    ensures |r| == |n|
    ensures forall i :: 0 <= i < |n| ==> r[i] == LowerByte(n[i])
  {
    if n == [] then [] else [LowerByte(n[0])] + Lower(n[1..])
  }

  lemma LowerTwice(n: Name)
    ensures Lower(Lower(n)) == Lower(n)
  {}

  /** The same byte, or the same ASCII letter in the other case. */
  predicate SameByte(x: byte, y: byte) {
    x == y || (65 <= x <= 90 && y == x + 32) || (65 <= y <= 90 && x == y + 32)
  }

  ghost predicate SameButCase(a: Name, b: Name) {
    |a| == |b| && forall i :: 0 <= i < |a| ==> SameByte(a[i], b[i])
  }

  lemma LowerByteIff(x: byte, y: byte)
    ensures LowerByte(x) == LowerByte(y) <==> SameByte(x, y)
    ensures LowerByte(x) == x <==> !(65 <= x <= 90)
  {}

  /** Folding forgets the case of ASCII letters and nothing else. */
  lemma LowerForgetsCase(a: Name, b: Name)
    ensures Lower(a) == Lower(b) <==> SameButCase(a, b)
  {
    if Lower(a) == Lower(b) {
      forall i | 0 <= i < |a| ensures SameByte(a[i], b[i]) {
        assert Lower(a)[i] == Lower(b)[i];
        LowerByteIff(a[i], b[i]);
      }
    }
    if SameButCase(a, b) {
      forall i | 0 <= i < |a| ensures Lower(a)[i] == Lower(b)[i] { LowerByteIff(a[i], b[i]); }
    }
  }

  /** It leaves exactly the names without a capital as they are. */
  lemma LowerFixesIff(a: Name)
    ensures Lower(a) == a <==> forall i :: 0 <= i < |a| ==> !(65 <= a[i] <= 90)
  {
    if Lower(a) == a {
      forall i | 0 <= i < |a| ensures !(65 <= a[i] <= 90) {
        assert Lower(a)[i] == a[i];
        LowerByteIff(a[i], a[i]);
      }
    }
    if forall i :: 0 <= i < |a| ==> !(65 <= a[i] <= 90) {
      forall i | 0 <= i < |a| ensures Lower(a)[i] == a[i] { LowerByteIff(a[i], a[i]); }
    }
  }

  // ---- Reading ----

  /** The labels so far, and one more. */
  function Append(acc: Name, l: seq<byte>): Name { if acc == [] then l else acc + [DOT] + l }

  /** The 14-bit offset of a compression pointer. */
  function Target(hi: byte, lo: byte): nat
    requires hi >= 192
  {
    (hi - 192) * 256 + lo
  }

  /** What stands at one position of a name. */
  datatype Mark = Root | Malformed | Jump(to: nat) | Label(text: seq<byte>, next: nat)

  function MarkAt(buf: Message, pos: nat): (m: Mark)
    ensures m.Label? ==> 1 <= |m.text| <= MAX_LABEL_LEN && m.next == pos + 1 + |m.text| <= |buf|
    ensures m.Root? ==> pos < |buf|
    ensures m.Jump? ==> pos + 1 < |buf| && m.to < |buf|
  {
    if pos >= |buf| then Malformed
    else if buf[pos] == 0 then Root
    else if buf[pos] >= 192 then
      if pos + 1 >= |buf| || Target(buf[pos], buf[pos + 1]) >= |buf| then Malformed
      else Jump(Target(buf[pos], buf[pos + 1]))
    else if buf[pos] > MAX_LABEL_LEN || pos + 1 + buf[pos] > |buf| then Malformed
    else Label(buf[pos + 1..pos + 1 + buf[pos]], pos + 1 + buf[pos])
  }

  /** The two bytes that point to an offset below 2^14 are read as that offset, if it lies in the buffer. */
  lemma PointerMeans(buf: Message, pos: nat, offset: nat)
    requires offset < 0x4000 && pos + 1 < |buf| && buf[pos] == 0xC0 + offset / 256 && buf[pos + 1] == offset % 256
    ensures MarkAt(buf, pos) == if offset < |buf| then Jump(offset) else Malformed
  {}

  /** A first byte of 1 to 63 announces that many bytes of label; 64 to 191 announce nothing. */
  lemma LengthMeans(buf: Message, pos: nat)
    requires pos < |buf| && buf[pos] < 0xC0
    ensures MarkAt(buf, pos) ==
            if buf[pos] == 0 then Root
            else if buf[pos] < 64 && pos + 1 + buf[pos] <= |buf| then
              Label(buf[pos + 1..pos + 1 + buf[pos]], pos + 1 + buf[pos])
            else Malformed
  {}

  function Marks(buf: Message): nat -> Mark { (pos: nat) => MarkAt(buf, pos) }

  /** Labels are short and lead forward, inside the buffer. */
  ghost predicate Forward(mark: nat -> Mark, size: nat) {
    forall p: nat :: mark(p).Label? ==> p < mark(p).next <= size && |mark(p).text| <= MAX_LABEL_LEN
  }

  lemma MarksForward(buf: Message)
    ensures Forward(Marks(buf), |buf|)
  {}

  /** Read labels from `pos` on, with some pointer jumps left: the dotted name as spelled, and the
      position after the name where it started. */
  function ReadBy(mark: nat -> Mark, size: nat, pos: nat, jumps: nat, acc: Name): Reading
    requires Forward(mark, size)
    decreases jumps, size - pos
  {
    match mark(pos)
    case Root => Reading(acc, pos + 1)
    case Malformed => NoName
    case Jump(to) =>
      if jumps == 0 then NoName
      else
        var rest := ReadBy(mark, size, to, jumps - 1, acc);
        if rest.NoName? then NoName else Reading(rest.name, pos + 2)
    case Label(text, next) =>
      if |Append(acc, text)| > MAX_NAME_LEN then NoName else ReadBy(mark, size, next, jumps, Append(acc, text))
  }

  function ReadRaw(buf: Message, pos: nat, jumps: nat): Reading {
    MarksForward(buf);
    ReadBy(Marks(buf), |buf|, pos, jumps, [])
  }

  function ReadName(buf: Message, start: nat): Reading {
    var raw := ReadRaw(buf, start, MAX_POINTER_JUMPS);
    if raw.NoName? then NoName else Reading(Lower(raw.name), raw.next)
  }

  /** The reading in progress: the rest of the name, with the end frozen once a pointer was taken. */
  ghost predicate Reads(whole: Reading, rest: Reading, after: Option<nat>) {
    whole == if rest.NoName? then NoName else Reading(rest.name, if after.Some? then after.value else rest.next)
  }

  lemma ReadsJump(mark: nat -> Mark, size: nat, pos: nat, jumps: nat, acc: Name, whole: Reading, after: Option<nat>)
    requires Forward(mark, size) && mark(pos).Jump? && Reads(whole, ReadBy(mark, size, pos, jumps, acc), after)
    ensures if jumps == 0 then whole == NoName
            else Reads(whole, ReadBy(mark, size, mark(pos).to, jumps - 1, acc), if after.Some? then after else Some(pos + 2))
  {}

  lemma ReadsLabel(mark: nat -> Mark, size: nat, pos: nat, jumps: nat, acc: Name, whole: Reading, after: Option<nat>)
    requires Forward(mark, size) && mark(pos).Label? && Reads(whole, ReadBy(mark, size, pos, jumps, acc), after)
    ensures var longer := Append(acc, mark(pos).text);
            if |longer| > MAX_NAME_LEN then whole == NoName
            else Reads(whole, ReadBy(mark, size, mark(pos).next, jumps, longer), after)
  {}

  lemma ReadsEnd(mark: nat -> Mark, size: nat, pos: nat, jumps: nat, acc: Name, whole: Reading, after: Option<nat>)
    requires Forward(mark, size) && Reads(whole, ReadBy(mark, size, pos, jumps, acc), after)
    ensures mark(pos).Malformed? ==> whole == NoName
    ensures mark(pos).Root? ==> whole == Reading(acc, if after.Some? then after.value else pos + 1)
  {}

  /** `mark` tells what stands in the buffer. */
  ghost predicate Marked(mark: nat -> Mark, buf: Message) {
    forall p: nat {:trigger MarkAt(buf, p)} :: mark(p) == MarkAt(buf, p)
  }

  /** Look at one position. */
  method Look(buf: Message, pos: nat, ghost mark: nat -> Mark) returns (m: Mark)
    requires Marked(mark, buf)
    ensures m == mark(pos) && (m.Label? ==> pos < m.next <= |buf|)
  {
    m := MarkAt(buf, pos);
  }

  /** The reading loop: it ends on every buffer, since each turn spends a jump or moves forward. */
  method ReadLoop(buf: Message, start: nat, ghost mark: nat -> Mark, ghost size: nat) returns (r: Reading)
    requires Marked(mark, buf) && Forward(mark, size) && size == |buf|
    ensures r == ReadBy(mark, size, start, MAX_POINTER_JUMPS, [])
  {
    var labels: Name := [];
    var pos: nat, jumps: nat := start, 0;
    var after: Option<nat> := None;
    ghost var whole := ReadBy(mark, size, start, MAX_POINTER_JUMPS, []);
    while true
      invariant jumps <= MAX_POINTER_JUMPS
      invariant Reads(whole, ReadBy(mark, size, pos, MAX_POINTER_JUMPS - jumps, labels), after)
      decreases MAX_POINTER_JUMPS - jumps, |buf| - pos
    {
      var m := Look(buf, pos, mark);
      ReadsEnd(mark, size, pos, MAX_POINTER_JUMPS - jumps, labels, whole, after);
      if m.Malformed? { return NoName; }
      if m.Root? {
        pos := pos + 1;
        break;
      }
      if m.Jump? {
        ReadsJump(mark, size, pos, MAX_POINTER_JUMPS - jumps, labels, whole, after);
        if after.None? { after := Some(pos + 2); }
        jumps := jumps + 1;
        if jumps > MAX_POINTER_JUMPS { return NoName; }
        pos := m.to;
      } else {
        ReadsLabel(mark, size, pos, MAX_POINTER_JUMPS - jumps, labels, whole, after);
        labels := Append(labels, m.text);
        if |labels| > MAX_NAME_LEN { return NoName; }
        pos := m.next;
      }
    }
    r := Reading(labels, if after.Some? then after.value else pos);
  }

  /** Read the name and fold it. */
  method Read(buf: Message, start: nat) returns (r: Reading)
    ensures r == ReadName(buf, start)
  {
    MarksForward(buf);
    var raw := ReadLoop(buf, start, Marks(buf), |buf|);
    r := if raw.NoName? then NoName else Reading(Lower(raw.name), raw.next);
  }

  /** Positions that can end a name lie inside the buffer. */
  ghost predicate Inside(mark: nat -> Mark, size: nat) {
    forall p: nat :: (mark(p).Root? ==> p < size) && (mark(p).Jump? ==> p + 1 < size)
  }

  lemma {:induction false} ReadBounds(mark: nat -> Mark, size: nat, pos: nat, jumps: nat, acc: Name)
    requires Forward(mark, size) && Inside(mark, size) && |acc| <= MAX_NAME_LEN
    ensures var r := ReadBy(mark, size, pos, jumps, acc);
            r.Reading? ==> pos < r.next <= size && |acc| <= |r.name| <= MAX_NAME_LEN
    decreases jumps, size - pos
  {
    match mark(pos) {
      case Root => {}
      case Malformed => {}
      case Jump(to) => { if jumps > 0 { ReadBounds(mark, size, to, jumps - 1, acc); } }
      case Label(text, next) => {
        if |Append(acc, text)| <= MAX_NAME_LEN { ReadBounds(mark, size, next, jumps, Append(acc, text)); }
      }
    }
  }

  /** Whatever the bytes, a name read ends after its start and inside the buffer; an ASCII one is at most
      255 bytes long and in lower case. */
  lemma ReadNameBounds(buf: Message, start: nat)
    ensures var r := ReadName(buf, start);
            r.Reading? ==> start < r.next <= |buf| && |r.name| <= MAX_NAME_LEN && Lower(r.name) == r.name
  {
    MarksForward(buf);
    ReadBounds(Marks(buf), |buf|, start, MAX_POINTER_JUMPS, []);
    var raw := ReadRaw(buf, start, MAX_POINTER_JUMPS);
    if raw.Reading? { LowerTwice(raw.name); }
  }

  // ---- Writing ----

  /** A label cut to what a length byte may announce. */
  function Clip(l: seq<byte>): (r: seq<byte>)
    ensures |r| <= MAX_LABEL_LEN && (|l| <= MAX_LABEL_LEN ==> r == l)
  {
    if |l| <= MAX_LABEL_LEN then l else l[..MAX_LABEL_LEN]
  }

  /** Length-prefixed labels. */
  function Wire(ls: seq<seq<byte>>): seq<byte> {
    if ls == [] then [] else [|ls[0]| % 256] + ls[0] + Wire(ls[1..])
  }

  /** The labels a name is written as: empty ones skipped, long ones cut. */
  function SentLabels(n: Name): seq<seq<byte>> { ClipAll(NonEmpty(Split(n, DOT))) }

  /** The uncompressed form of a name. */
  function WireName(n: Name): seq<byte> { Wire(SentLabels(n)) + [0] }

  lemma WireOne(l: seq<byte>, rest: seq<seq<byte>>)
    requires |l| < 256
    ensures Wire([l] + rest) == [|l|] + l + Wire(rest)
  {
    assert ([l] + rest)[1..] == rest;
  }

  lemma SentStep(pieces: seq<seq<byte>>)
    requires pieces != []
    ensures var rest := Wire(ClipAll(NonEmpty(pieces[1..])));
            Wire(ClipAll(NonEmpty(pieces))) ==
            if pieces[0] == [] then rest else [|Clip(pieces[0])|] + Clip(pieces[0]) + rest
  {
    if pieces[0] != [] {
      assert NonEmpty(pieces)[1..] == NonEmpty(pieces[1..]);
      assert ClipAll(NonEmpty(pieces)) == [Clip(pieces[0])] + ClipAll(NonEmpty(pieces[1..]));
      WireOne(Clip(pieces[0]), ClipAll(NonEmpty(pieces[1..])));
    }
  }

  /** The bytes so far, then the rest of the labels, are the whole. */
  ghost predicate WrittenSoFar(labels: seq<seq<byte>>, i: nat, r: seq<byte>, whole: seq<byte>) {
    i <= |labels| && r + Wire(ClipAll(NonEmpty(labels[i..]))) == whole
  }

  lemma WrittenMore(labels: seq<seq<byte>>, i: nat, r: seq<byte>, whole: seq<byte>)
    requires i < |labels| && WrittenSoFar(labels, i, r, whole)
    ensures WrittenSoFar(labels, i + 1, if labels[i] == [] then r else r + ([|Clip(labels[i])|] + Clip(labels[i])), whole)
  {
    SentStep(labels[i..]);
    assert labels[i..][1..] == labels[i + 1..];
    Regroup(r, [|Clip(labels[i])|] + Clip(labels[i]), Wire(ClipAll(NonEmpty(labels[i + 1..]))));
  }

  lemma WrittenAll(labels: seq<seq<byte>>, r: seq<byte>, whole: seq<byte>)
    requires WrittenSoFar(labels, |labels|, r, whole)
    ensures r == whole
  {
    assert Wire(ClipAll(NonEmpty(labels[|labels|..]))) == [] && r + [] == r;
  }

  /** Append a name's uncompressed form. */
  method WriteName(out: seq<byte>, n: Name) returns (r: seq<byte>)
    ensures r == out + WireName(n)
  {
    var labels := Split(n, DOT);
    r := out;
    ghost var whole := out + Wire(SentLabels(n));
    assert labels[0..] == labels;
    for i := 0 to |labels|
      invariant WrittenSoFar(labels, i, r, whole)
    {
      WrittenMore(labels, i, r, whole);
      if labels[i] != [] { r := r + ([|Clip(labels[i])|] + Clip(labels[i])); }
    }
    WrittenAll(labels, r, whole);
    Regroup(out, Wire(SentLabels(n)), [0]);
    r := r + [0];
  }

  function ClipAll(ls: seq<seq<byte>>): (r: seq<seq<byte>>)
    ensures |r| == |ls|
  {
    if ls == [] then [] else [Clip(ls[0])] + ClipAll(ls[1..])
  }

  /** Labels as the wire carries them: 1 to 63 bytes. */
  ghost predicate WireLabels(ls: seq<seq<byte>>) {
    forall i :: 0 <= i < |ls| ==> 1 <= |ls[i]| <= MAX_LABEL_LEN
  }

  lemma {:induction false} SentAreLabels(pieces: seq<seq<byte>>)
    requires forall i :: 0 <= i < |pieces| ==> pieces[i] != []
    ensures WireLabels(ClipAll(pieces))
  {
    if pieces != [] { SentAreLabels(pieces[1..]); }
  }

  /** The labels appended one by one. */
  function Spell(acc: Name, ls: seq<seq<byte>>): Name
    decreases |ls|
  {
    if ls == [] then acc else Spell(Append(acc, ls[0]), ls[1..])
  }

  lemma {:induction false} SpellGrows(acc: Name, ls: seq<seq<byte>>)
    ensures |Spell(acc, ls)| >= |acc|
    decreases |ls|
  {
    if ls != [] { SpellGrows(Append(acc, ls[0]), ls[1..]); }
  }

  lemma {:induction false} SpellIsJoin(acc: Name, ls: seq<seq<byte>>)
    requires acc != []
    ensures Spell(acc, ls) == Join([acc] + ls, DOT)
    decreases |ls|
  {
    if ls == [] {
      assert [acc] + ls == [acc];
    } else {
      var longer := Append(acc, ls[0]);
      SpellIsJoin(longer, ls[1..]);
      var all, rest := [acc] + ls, [longer] + ls[1..];
      assert all[1..] == ls && rest[1..] == ls[1..];
      if |ls| > 1 {
        assert acc + [DOT] + (ls[0] + [DOT] + Join(ls[1..], DOT)) == acc + [DOT] + ls[0] + [DOT] + Join(ls[1..], DOT);
      }
    }
  }

  lemma SpellFromNothing(ls: seq<seq<byte>>)
    requires WireLabels(ls)
    ensures Spell([], ls) == Join(ls, DOT)
  {
    if ls != [] {
      SpellIsJoin(ls[0], ls[1..]);
      assert [ls[0]] + ls[1..] == ls;
    }
  }

  // ---- Names in place ----

  /** The labels stand from `pos` to `end`. */
  ghost predicate Spelled(mark: nat -> Mark, pos: nat, ls: seq<seq<byte>>, end: nat)
    decreases |ls|
  {
    if ls == [] then pos == end
    else mark(pos).Label? && mark(pos).text == ls[0] && Spelled(mark, mark(pos).next, ls[1..], end)
  }

  /** Labels standing somewhere are read, unless the name gets too long; then reading goes on after them. */
  lemma {:induction false} ReadSpelled(mark: nat -> Mark, size: nat, pos: nat, ls: seq<seq<byte>>, end: nat, jumps: nat, acc: Name)
    requires Forward(mark, size) && Spelled(mark, pos, ls, end) && |acc| <= MAX_NAME_LEN
    ensures ReadBy(mark, size, pos, jumps, acc) ==
            if |Spell(acc, ls)| <= MAX_NAME_LEN then ReadBy(mark, size, end, jumps, Spell(acc, ls)) else NoName
    decreases |ls|
  {
    if ls != [] {
      var longer := Append(acc, ls[0]);
      SpellGrows(longer, ls[1..]);
      if |longer| <= MAX_NAME_LEN { ReadSpelled(mark, size, mark(pos).next, ls[1..], end, jumps, longer); }
    }
  }

  /** The name, unless it is too long. */
  function Bounded(name: Name, end: nat): Reading {
    if |name| <= MAX_NAME_LEN then Reading(name, end) else NoName
  }

  /** A name spelled in place reads as its labels, whatever surrounds it. */
  lemma ReadPlain(mark: nat -> Mark, size: nat, pos: nat, ls: seq<seq<byte>>, stop: nat, jumps: nat, acc: Name)
    requires Forward(mark, size) && Spelled(mark, pos, ls, stop) && mark(stop).Root? && |acc| <= MAX_NAME_LEN
    ensures ReadBy(mark, size, pos, jumps, acc) == Bounded(Spell(acc, ls), stop + 1)
  {
    ReadSpelled(mark, size, pos, ls, stop, jumps, acc);
  }

  /** A name spelled in place up to a pointer reads as its labels and those at the target. */
  lemma ReadPointed(mark: nat -> Mark, size: nat, pos: nat, ls: seq<seq<byte>>, stop: nat,
                    more: seq<seq<byte>>, moreStop: nat, jumps: nat)
    requires Forward(mark, size) && Spelled(mark, pos, ls, stop) && mark(stop).Jump? && jumps > 0
    requires Spelled(mark, mark(stop).to, more, moreStop) && mark(moreStop).Root?
    ensures ReadBy(mark, size, pos, jumps, []) == Bounded(Spell(Spell([], ls), more), stop + 2)
  {
    var name := Spell([], ls);
    ReadSpelled(mark, size, pos, ls, stop, jumps, []);
    SpellGrows(name, more);
    if |name| <= MAX_NAME_LEN { ReadPlain(mark, size, mark(stop).to, more, moreStop, jumps - 1, name); }
  }

  function At(buf: Message, pos: nat, i: nat): int { if pos + i < |buf| then buf[pos + i] else -1 }

  /** The same `n` bytes in two buffers. */
  ghost predicate Same(a: Message, pa: nat, b: Message, pb: nat, n: nat) {
    && pa + n <= |a| && pb + n <= |b|
    && forall i {:trigger At(a, pa, i)} :: 0 <= i < n ==> At(a, pa, i) == At(b, pb, i)
  }

  lemma SameAt(a: Message, pa: nat, b: Message, pb: nat, n: nat, i: nat)
    requires Same(a, pa, b, pb, n) && i < n
    ensures a[pa + i] == b[pb + i]
  {
    assert At(a, pa, i) == At(b, pb, i);
  }

  lemma SamePart(a: Message, pa: nat, b: Message, pb: nat, n: nat, i: nat, k: nat)
    requires Same(a, pa, b, pb, n) && i + k <= n
    ensures Same(a, pa + i, b, pb + i, k)
  {
    forall q {:trigger At(a, pa + i, q)} | 0 <= q < k ensures At(a, pa + i, q) == At(b, pb + i, q) {
      assert At(a, pa, i + q) == At(b, pb, i + q);
    }
  }

  lemma SameSlice(a: Message, pa: nat, b: Message, pb: nat, n: nat)
    ensures Same(a, pa, b, pb, n) <==> pa + n <= |a| && pb + n <= |b| && a[pa..pa + n] == b[pb..pb + n]
  {
    if pa + n <= |a| && pb + n <= |b| {
      var x, y := a[pa..pa + n], b[pb..pb + n];
      if Same(a, pa, b, pb, n) {
        forall i | 0 <= i < n ensures x[i] == y[i] { SameAt(a, pa, b, pb, n, i); }
      }
      if x == y {
        forall i {:trigger At(a, pa, i)} | 0 <= i < n ensures At(a, pa, i) == At(b, pb, i) { assert x[i] == y[i]; }
      }
    }
  }

  lemma SameThrough(a: Message, pa: nat, b: Message, pb: nat, c: Message, pc: nat, n: nat)
    requires Same(a, pa, b, pb, n) && Same(a, pa, c, pc, n)
    ensures Same(b, pb, c, pc, n)
  {
    forall i {:trigger At(b, pb, i)} | 0 <= i < n ensures At(b, pb, i) == At(c, pc, i) {
      assert At(a, pa, i) == At(b, pb, i);
    }
  }

  /** The buffer holds these bytes at this position. */
  ghost predicate Holds(buf: Message, pos: nat, w: seq<byte>) { Same(w, 0, buf, pos, |w|) }

  lemma HoldsAt(buf: Message, pos: nat, w: seq<byte>, i: nat)
    requires Holds(buf, pos, w) && i < |w|
    ensures buf[pos + i] == w[i]
  {
    SameAt(w, 0, buf, pos, |w|, i);
  }

  lemma HoldsSlice(buf: Message, pos: nat, w: seq<byte>)
    ensures Holds(buf, pos, w) <==> pos + |w| <= |buf| && buf[pos..pos + |w|] == w
  {
    SameSlice(w, 0, buf, pos, |w|);
    assert w[0..|w|] == w;
  }

  lemma HoldsApart(buf: Message, pos: nat, a: seq<byte>, b: seq<byte>)
    requires Holds(buf, pos, a + b)
    ensures Holds(buf, pos, a) && Holds(buf, pos + |a|, b)
  {
    var w := a + b;
    SameSlice(w, 0, a, 0, |a|);
    SameSlice(w, |a|, b, 0, |b|);
    assert w[0..|a|] == a[0..|a|] && w[|a|..|a| + |b|] == b[0..|b|];
    SamePart(w, 0, buf, pos, |w|, 0, |a|);
    SamePart(w, 0, buf, pos, |w|, |a|, |b|);
    SameThrough(w, 0, a, 0, buf, pos, |a|);
    SameThrough(w, |a|, b, 0, buf, pos + |a|, |b|);
  }

  lemma HoldsTogether(buf: Message, pos: nat, a: seq<byte>, b: seq<byte>)
    requires Holds(buf, pos, a) && Holds(buf, pos + |a|, b)
    ensures Holds(buf, pos, a + b)
  {
    var w := a + b;
    forall i {:trigger At(w, 0, i)} | 0 <= i < |w| ensures At(w, 0, i) == At(buf, pos, i) {
      if i < |a| { HoldsAt(buf, pos, a, i); } else { HoldsAt(buf, pos + |a|, b, i - |a|); }
    }
  }

  lemma HoldsBoth(buf: Message, pos: nat, a: seq<byte>, b: seq<byte>)
    ensures Holds(buf, pos, a + b) <==> Holds(buf, pos, a) && Holds(buf, pos + |a|, b)
  {
    if Holds(buf, pos, a + b) { HoldsApart(buf, pos, a, b); }
    if Holds(buf, pos, a) && Holds(buf, pos + |a|, b) { HoldsTogether(buf, pos, a, b); }
  }

  lemma HoldsIn(pre: seq<byte>, w: seq<byte>, post: seq<byte>)
    ensures Holds(pre + w + post, |pre|, w)
  {
    HoldsSlice(pre + w + post, |pre|, w);
  }

  lemma MarkAtLabel(buf: Message, pos: nat, l: seq<byte>)
    requires 1 <= |l| <= MAX_LABEL_LEN && Holds(buf, pos, [|l|]) && Holds(buf, pos + 1, l)
    ensures MarkAt(buf, pos) == Label(l, pos + 1 + |l|)
  {
    HoldsAt(buf, pos, [|l|], 0);
    HoldsSlice(buf, pos + 1, l);
  }

  lemma {:induction false} WireSpelled(buf: Message, pos: nat, ls: seq<seq<byte>>)
    requires WireLabels(ls) && Holds(buf, pos, Wire(ls))
    ensures Spelled(Marks(buf), pos, ls, pos + |Wire(ls)|)
    decreases |ls|
  {
    if ls != [] {
      var l, rest := ls[0], Wire(ls[1..]);
      WireCons(ls);
      HoldsBoth(buf, pos, [|l|], l + rest);
      HoldsBoth(buf, pos + 1, l, rest);
      MarkAtLabel(buf, pos, l);
      WireSpelled(buf, pos + 1 + |l|, ls[1..]);
    }
  }

  lemma WireLabelsTail(ls: seq<seq<byte>>)
    requires ls != [] && WireLabels(ls)
    ensures 1 <= |ls[0]| <= MAX_LABEL_LEN && WireLabels(ls[1..])
  {}

  lemma WireCons(ls: seq<seq<byte>>)
    requires ls != [] && WireLabels(ls)
    ensures 1 <= |ls[0]| <= MAX_LABEL_LEN && WireLabels(ls[1..])
    ensures Wire(ls) == [|ls[0]|] + (ls[0] + Wire(ls[1..]))
  {
    WireLabelsTail(ls);
    Regroup([|ls[0]|], ls[0], Wire(ls[1..]));
  }

  /** What the wire form of a name spells: empty labels dropped, long ones cut. */
  function Sent(n: Name): Name { Join(SentLabels(n), DOT) }

  lemma SentLabelsFit(n: Name)
    ensures WireLabels(SentLabels(n)) && Spell([], SentLabels(n)) == Sent(n)
  {
    NonEmptyAll(Split(n, DOT));
    SentAreLabels(NonEmpty(Split(n, DOT)));
    SpellFromNothing(SentLabels(n));
  }

  /** A name written anywhere in a buffer is read back as what was sent, unless that is too long. */
  lemma ReadWritten(buf: Message, pos: nat, n: Name, jumps: nat)
    requires Holds(buf, pos, WireName(n))
    ensures ReadRaw(buf, pos, jumps) == Bounded(Sent(n), pos + |WireName(n)|)
  {
    WrittenStands(buf, pos, n);
    MarksForward(buf);
    ReadPlain(Marks(buf), |buf|, pos, SentLabels(n), pos + |WireName(n)| - 1, jumps, []);
  }

  lemma WrittenStands(buf: Message, pos: nat, n: Name)
    requires Holds(buf, pos, WireName(n))
    ensures Spelled(Marks(buf), pos, SentLabels(n), pos + |WireName(n)| - 1)
    ensures MarkAt(buf, pos + |WireName(n)| - 1).Root?
    ensures Spell([], SentLabels(n)) == Sent(n)
  {
    SentLabelsFit(n);
    WireStands(buf, pos, SentLabels(n));
  }

  lemma WireStands(buf: Message, pos: nat, ls: seq<seq<byte>>)
    requires WireLabels(ls) && Holds(buf, pos, Wire(ls) + [0])
    ensures Spelled(Marks(buf), pos, ls, pos + |Wire(ls)|) && MarkAt(buf, pos + |Wire(ls)|).Root?
  {
    HoldsBoth(buf, pos, Wire(ls), [0]);
    HoldsAt(buf, pos + |Wire(ls)|, [0], 0);
    WireSpelled(buf, pos, ls);
  }

  // ---- Names that survive being written ----

  ghost predicate AllShort(pieces: seq<seq<byte>>) {
    forall i :: 0 <= i < |pieces| ==> |pieces[i]| <= MAX_LABEL_LEN
  }

  /** The name splits into labels of at most 63 bytes. */
  ghost predicate ShortSegments(n: Name) { AllShort(Split(n, DOT)) }

  /** The root, or a name without an empty label. */
  predicate NoEmptyLabel(n: Name) {
    n == [] || forall i :: 0 <= i < |Split(n, DOT)| ==> Split(n, DOT)[i] != []
  }

  lemma {:induction false} ClipKeeps(ls: seq<seq<byte>>)
    requires forall i :: 0 <= i < |ls| ==> |ls[i]| <= MAX_LABEL_LEN
    ensures ClipAll(ls) == ls
  {
    if ls != [] { ClipKeeps(ls[1..]); }
  }

  lemma {:induction false} JoinNonEmptyLength(pieces: seq<seq<byte>>)
    requires pieces != []
    ensures |Join(NonEmpty(pieces), DOT)| == |Join(pieces, DOT)| <==>
            (forall i :: 0 <= i < |pieces| ==> pieces[i] != []) || pieces == [[]]
    ensures |Join(NonEmpty(pieces), DOT)| <= |Join(pieces, DOT)|
  {
    if |pieces| == 1 {
      if pieces[0] != [] { assert NonEmpty(pieces) == pieces; } else { assert pieces == [[]]; }
    } else {
      var rest := pieces[1..];
      JoinNonEmptyLength(rest);
      if pieces[0] == [] {
        assert |Join(pieces, DOT)| == 1 + |Join(rest, DOT)|;
      } else {
        assert NonEmpty(pieces)[1..] == NonEmpty(rest);
        assert |Join(pieces, DOT)| == |pieces[0]| + 1 + |Join(rest, DOT)|;
        if NonEmpty(rest) == [] {
          assert |Join(NonEmpty(pieces), DOT)| == |pieces[0]|;
          NoneLeft(rest);
        }
        assert forall i :: 0 <= i < |rest| ==> rest[i] == pieces[i + 1];
      }
    }
  }

  lemma {:induction false} NoneLeft(pieces: seq<seq<byte>>)
    requires pieces != [] && NonEmpty(pieces) == []
    ensures pieces[0] == []
  {}

  /** Written and read, a name with short labels is itself exactly when it has no empty label. */
  lemma SentExactly(n: Name)
    requires ShortSegments(n)
    ensures Sent(n) == Join(NonEmpty(Split(n, DOT)), DOT) && |Sent(n)| <= |n|
    ensures Sent(n) == n <==> NoEmptyLabel(n)
  {
    var pieces := Split(n, DOT);
    JoinSplit(n, DOT);
    NonEmptySub(pieces);
    forall i | 0 <= i < |NonEmpty(pieces)| ensures |NonEmpty(pieces)[i]| <= MAX_LABEL_LEN {
      assert NonEmpty(pieces)[i] in pieces;
    }
    ClipKeeps(NonEmpty(pieces));
    JoinNonEmptyLength(pieces);
    if NoEmptyLabel(n) && n != [] { NonEmptyKeeps(pieces); }
    if pieces == [[]] { assert n == []; }
  }

  lemma AppendSegments(acc: Name, l: seq<byte>)
    requires ShortSegments(acc) && |l| <= MAX_LABEL_LEN
    ensures ShortSegments(Append(acc, l))
  {
    PieceLengths(l);
    if acc != [] { SplitConcat(acc, l, DOT); }
  }

  lemma {:induction false} PieceLengths(l: seq<byte>)
    ensures forall i :: 0 <= i < |Split(l, DOT)| ==> |Split(l, DOT)[i]| <= |l|
  {
    if l != [] { PieceLengths(l[1..]); }
  }

  /** The property survives each label appended. */
  ghost predicate KeptByLabels(p: Name -> bool) {
    forall acc, l :: p(acc) && |l| <= MAX_LABEL_LEN ==> p(Append(acc, l))
  }

  /** What every appended label keeps holds of the name read, however it was compressed. */
  lemma {:induction false} ReadKeeps(p: Name -> bool, mark: nat -> Mark, size: nat, pos: nat, jumps: nat, acc: Name)
    requires KeptByLabels(p) && p(acc) && Forward(mark, size)
    ensures ReadBy(mark, size, pos, jumps, acc).Reading? ==> p(ReadBy(mark, size, pos, jumps, acc).name)
    decreases jumps, size - pos
  {
    match mark(pos) {
      case Root => {}
      case Malformed => {}
      case Jump(to) => { if jumps > 0 { ReadKeeps(p, mark, size, to, jumps - 1, acc); } }
      case Label(text, next) => {
        if |Append(acc, text)| <= MAX_NAME_LEN { ReadKeeps(p, mark, size, next, jumps, Append(acc, text)); }
      }
    }
  }

  /** Two splits with pieces of the same lengths. */
  ghost predicate SameLengths(a: seq<seq<byte>>, b: seq<seq<byte>>) {
    |a| == |b| && forall i :: 0 <= i < |a| ==> |a[i]| == |b[i]|
  }

  /** Lowering keeps the dots, so it keeps the lengths of the labels. */
  lemma {:induction false} LowerSegments(n: Name)
    ensures SameLengths(Split(Lower(n), DOT), Split(n, DOT))
  {
    if n != [] {
      var low := Lower(n);
      LowerSegments(n[1..]);
      assert low[1..] == Lower(n[1..]) && low[0] == LowerByte(n[0]);
      var a, b := Split(low[1..], DOT), Split(n[1..], DOT);
      if n[0] == DOT {
        assert Split(low, DOT) == [[]] + a && Split(n, DOT) == [[]] + b;
      } else {
        assert Split(low, DOT) == [[low[0]] + a[0]] + a[1..] && Split(n, DOT) == [[n[0]] + b[0]] + b[1..];
      }
    }
  }

  lemma RawShort(buf: Message, start: nat, jumps: nat)
    ensures var r := ReadRaw(buf, start, jumps); r.Reading? ==> ShortSegments(r.name)
  {
    ghost var p: Name -> bool := (n: Name) => ShortSegments(n);
    forall acc, l | p(acc) && |l| <= MAX_LABEL_LEN ensures p(Append(acc, l)) { AppendSegments(acc, l); }
    assert p([]);
    MarksForward(buf);
    ReadKeeps(p, Marks(buf), |buf|, start, jumps, []);
  }

  /** However it was compressed, an ASCII name read from the wire has labels of at most 63 bytes. */
  lemma ReadNameShort(buf: Message, start: nat)
    ensures var r := ReadName(buf, start); r.Reading? ==> ShortSegments(r.name)
  {
    RawShort(buf, start, MAX_POINTER_JUMPS);
    var raw := ReadRaw(buf, start, MAX_POINTER_JUMPS);
    if raw.Reading? { LowerSegments(raw.name); }
  }

  // ---- Moving names ----

  /** The labels spelled in place from `pos` on, up to the root, a pointer or a malformed byte. */
  function InPlace(mark: nat -> Mark, size: nat, pos: nat): seq<seq<byte>>
    requires Forward(mark, size)
    decreases size - pos
  {
    if mark(pos).Label? then [mark(pos).text] + InPlace(mark, size, mark(pos).next) else []
  }

  /** Where they stop. */
  function StopBy(mark: nat -> Mark, size: nat, pos: nat): (r: nat)
    requires Forward(mark, size)
    ensures r >= pos && !mark(r).Label?
    decreases size - pos
  {
    if mark(pos).Label? then StopBy(mark, size, mark(pos).next) else pos
  }

  lemma {:induction false} InPlaceSpelled(mark: nat -> Mark, size: nat, pos: nat)
    requires Forward(mark, size)
    ensures Spelled(mark, pos, InPlace(mark, size, pos), StopBy(mark, size, pos))
    decreases size - pos
  {
    if mark(pos).Label? {
      InPlaceSpelled(mark, size, mark(pos).next);
      assert InPlace(mark, size, pos)[1..] == InPlace(mark, size, mark(pos).next);
    }
  }

  lemma {:induction false} SpelledStops(mark: nat -> Mark, size: nat, pos: nat, ls: seq<seq<byte>>, end: nat)
    requires Forward(mark, size) && Spelled(mark, pos, ls, end) && !mark(end).Label?
    ensures InPlace(mark, size, pos) == ls && StopBy(mark, size, pos) == end
    decreases |ls|
  {
    if ls != [] {
      SpelledStops(mark, size, mark(pos).next, ls[1..], end);
      assert ls == [ls[0]] + ls[1..];
    }
  }

  function LabelsAt(buf: Message, pos: nat): seq<seq<byte>> {
    MarksForward(buf);
    InPlace(Marks(buf), |buf|, pos)
  }

  function Stop(buf: Message, pos: nat): (r: nat)
    ensures r >= pos && !MarkAt(buf, r).Label?
  {
    MarksForward(buf);
    StopBy(Marks(buf), |buf|, pos)
  }

  lemma StandsAt(buf: Message, pos: nat)
    ensures Spelled(Marks(buf), pos, LabelsAt(buf, pos), Stop(buf, pos))
  {
    MarksForward(buf);
    InPlaceSpelled(Marks(buf), |buf|, pos);
  }

  lemma LabelMoves(a: Message, pa: nat, b: Message, pb: nat, n: nat)
    requires MarkAt(a, pa).Label? && Same(a, pa, b, pb, n) && MarkAt(a, pa).next <= pa + n
    ensures MarkAt(b, pb) == Label(MarkAt(a, pa).text, MarkAt(a, pa).next - pa + pb)
  {
    var k := |MarkAt(a, pa).text|;
    SameAt(a, pa, b, pb, n, 0);
    SamePart(a, pa, b, pb, n, 1, k);
    SameSlice(a, pa + 1, b, pb + 1, k);
  }

  lemma {:induction false} SpelledEnds(buf: Message, pos: nat, ls: seq<seq<byte>>, end: nat)
    requires Spelled(Marks(buf), pos, ls, end)
    ensures pos <= end
    decreases |ls|
  {
    if ls != [] { SpelledEnds(buf, MarkAt(buf, pos).next, ls[1..], end); }
  }

  lemma {:induction false} SpelledMoves(a: Message, pa: nat, b: Message, pb: nat, ls: seq<seq<byte>>, end: nat)
    requires Spelled(Marks(a), pa, ls, end) && pa <= end && Same(a, pa, b, pb, end - pa)
    ensures Spelled(Marks(b), pb, ls, end - pa + pb)
    decreases |ls|
  {
    if ls != [] {
      var n, next := end - pa, MarkAt(a, pa).next;
      SpelledEnds(a, next, ls[1..], end);
      LabelMoves(a, pa, b, pb, n);
      SamePart(a, pa, b, pb, n, next - pa, end - next);
      SpelledMoves(a, next, b, next - pa + pb, ls[1..], end);
    }
  }

  /** The name at `pos` is spelled in place, without a pointer. */
  predicate PlainName(buf: Message, pos: nat) { MarkAt(buf, Stop(buf, pos)).Root? }

  /** The position after a plain name. */
  function PlainEnd(buf: Message, pos: nat): (r: nat)
    requires PlainName(buf, pos)
    ensures pos < r <= |buf|
  {
    Stop(buf, pos) + 1
  }

  /** Labels stand wherever their bytes stand, if no further label follows them there. */
  lemma LabelsStand(a: Message, pa: nat, b: Message, pb: nat)
    requires Same(a, pa, b, pb, Stop(a, pa) - pa) && !MarkAt(b, Stop(a, pa) - pa + pb).Label?
    ensures LabelsAt(b, pb) == LabelsAt(a, pa) && Stop(b, pb) == Stop(a, pa) - pa + pb
  {
    StandsAt(a, pa);
    SpelledMoves(a, pa, b, pb, LabelsAt(a, pa), Stop(a, pa));
    MarksForward(b);
    SpelledStops(Marks(b), |b|, pb, LabelsAt(a, pa), Stop(a, pa) - pa + pb);
  }

  /** A plain name stands wherever its bytes stand. */
  lemma PlainStands(a: Message, pa: nat, b: Message, pb: nat)
    requires PlainName(a, pa) && Same(a, pa, b, pb, PlainEnd(a, pa) - pa)
    ensures LabelsAt(b, pb) == LabelsAt(a, pa) && Stop(b, pb) == Stop(a, pa) - pa + pb && PlainName(b, pb)
  {
    var n := PlainEnd(a, pa) - pa;
    SamePart(a, pa, b, pb, n, 0, n - 1);
    SameAt(a, pa, b, pb, n, n - 1);
    LabelsStand(a, pa, b, pb);
  }

  /** Reading a plain name. */
  lemma ReadPlainName(buf: Message, pos: nat, jumps: nat)
    requires PlainName(buf, pos)
    ensures ReadRaw(buf, pos, jumps) == Bounded(Spell([], LabelsAt(buf, pos)), PlainEnd(buf, pos))
  {
    MarksForward(buf);
    StandsAt(buf, pos);
    ReadPlain(Marks(buf), |buf|, pos, LabelsAt(buf, pos), Stop(buf, pos), jumps, []);
  }

  /** A plain name is readable exactly when it is at most 255 bytes long, dots included. */
  lemma PlainReadableIff(buf: Message, pos: nat)
    requires PlainName(buf, pos)
    ensures ReadName(buf, pos).Reading? <==> |Spell([], LabelsAt(buf, pos))| <= 255
  {
    ReadPlainName(buf, pos, MAX_POINTER_JUMPS);
  }

  /** Pointers from each position to the next, the last one a root. */
  ghost predicate PointerChain(buf: Message, ps: seq<nat>) {
    && ps != [] && MarkAt(buf, ps[|ps| - 1]) == Root
    && forall i :: 0 <= i < |ps| - 1 ==> MarkAt(buf, ps[i]) == Jump(ps[i + 1])
  }

  lemma {:induction false} ChainRead(buf: Message, ps: seq<nat>, jumps: nat)
    requires PointerChain(buf, ps)
    ensures ReadRaw(buf, ps[0], jumps) ==
            if |ps| - 1 <= jumps then Reading([], if |ps| == 1 then ps[0] + 1 else ps[0] + 2) else NoName
    decreases |ps|
  {
    MarksForward(buf);
    if |ps| > 1 {
      assert MarkAt(buf, ps[0]) == Jump(ps[1]) && ps[1..][0] == ps[1];
      forall i | 0 <= i < |ps[1..]| - 1 ensures MarkAt(buf, ps[1..][i]) == Jump(ps[1..][i + 1]) {
        assert MarkAt(buf, ps[i + 1]) == Jump(ps[i + 2]);
      }
      if jumps > 0 { ChainRead(buf, ps[1..], jumps - 1); }
    }
  }

  /** A chain of pointers is followed exactly up to sixteen of them. */
  lemma SixteenPointers(buf: Message, ps: seq<nat>)
    requires PointerChain(buf, ps)
    ensures ReadName(buf, ps[0]).Reading? <==> |ps| - 1 <= 16
  {
    ChainRead(buf, ps, MAX_POINTER_JUMPS);
  }

  lemma {:induction false} LoopRead(buf: Message, p: nat, jumps: nat)
    requires MarkAt(buf, p) == Jump(p)
    ensures ReadRaw(buf, p, jumps) == NoName
  {
    MarksForward(buf);
    if jumps > 0 { LoopRead(buf, p, jumps - 1); }
  }

  /** A pointer to itself is no name. */
  lemma LoopIsNoName(buf: Message, p: nat)
    requires MarkAt(buf, p) == Jump(p)
    ensures ReadName(buf, p) == NoName
  {
    LoopRead(buf, p, MAX_POINTER_JUMPS);
  }

  /** The name at `pos` is spelled in place up to a pointer to a plain name within `lo..hi`. */
  predicate PointedName(buf: Message, pos: nat, lo: nat, hi: nat) {
    var m := MarkAt(buf, Stop(buf, pos));
    m.Jump? && lo <= m.to && PlainName(buf, m.to) && PlainEnd(buf, m.to) <= hi
  }

  lemma ReadPointedName(buf: Message, pos: nat, lo: nat, hi: nat, jumps: nat)
    requires PointedName(buf, pos, lo, hi) && jumps > 0
    ensures ReadRaw(buf, pos, jumps) ==
            Bounded(Spell(Spell([], LabelsAt(buf, pos)), LabelsAt(buf, MarkAt(buf, Stop(buf, pos)).to)), Stop(buf, pos) + 2)
  {
    var stop := Stop(buf, pos);
    var to := MarkAt(buf, stop).to;
    MarksForward(buf);
    StandsAt(buf, pos);
    StandsAt(buf, to);
    ReadPointed(Marks(buf), |buf|, pos, LabelsAt(buf, pos), stop, LabelsAt(buf, to), Stop(buf, to), jumps);
  }

  /** A readable name that stops at a pointer ends right after it. */
  lemma PointedEnd(buf: Message, pos: nat, jumps: nat)
    requires MarkAt(buf, Stop(buf, pos)).Jump? && ReadRaw(buf, pos, jumps).Reading?
    ensures ReadRaw(buf, pos, jumps).next == Stop(buf, pos) + 2
  {
    MarksForward(buf);
    StandsAt(buf, pos);
    ReadSpelled(Marks(buf), |buf|, pos, LabelsAt(buf, pos), Stop(buf, pos), jumps, []);
  }

  /** A name that stops at a malformed byte cannot be read. */
  lemma StopsBroken(buf: Message, pos: nat, jumps: nat)
    requires MarkAt(buf, Stop(buf, pos)) == Malformed
    ensures ReadRaw(buf, pos, jumps) == NoName
  {
    MarksForward(buf);
    StandsAt(buf, pos);
    ReadSpelled(Marks(buf), |buf|, pos, LabelsAt(buf, pos), Stop(buf, pos), jumps, []);
  }

  lemma JumpCut(a: Message, pa: nat, b: Message, pb: nat)
    requires MarkAt(a, pa).Jump? && Same(a, pa, b, pb, 2) && MarkAt(a, pa).to >= |b|
    ensures MarkAt(b, pb) == Malformed
  {
    SameAt(a, pa, b, pb, 2, 0);
    SameAt(a, pa, b, pb, 2, 1);
  }

  /** A name that stops at a pointer is cut off by a buffer that ends at or before the target. */
  lemma CutStops(a: Message, pa: nat, b: Message, pb: nat)
    requires MarkAt(a, Stop(a, pa)).Jump? && MarkAt(a, Stop(a, pa)).to >= |b|
    requires Same(a, pa, b, pb, Stop(a, pa) + 2 - pa)
    ensures MarkAt(b, Stop(b, pb)) == Malformed
  {
    var stop, n := Stop(a, pa), Stop(a, pa) + 2 - pa;
    SamePart(a, pa, b, pb, n, 0, n - 2);
    SamePart(a, pa, b, pb, n, n - 2, 2);
    JumpCut(a, stop, b, stop - pa + pb);
    LabelsStand(a, pa, b, pb);
  }

  /** A name that does not depend on where it stands, the stretch `lo..hi` being kept. */
  predicate LocalName(buf: Message, pos: nat, lo: nat, hi: nat) {
    PlainName(buf, pos) || PointedName(buf, pos, lo, hi)
  }

  function LocalEnd(buf: Message, pos: nat, lo: nat, hi: nat): (r: nat)
    requires LocalName(buf, pos, lo, hi)
    ensures pos < r <= |buf|
  {
    if PlainName(buf, pos) then PlainEnd(buf, pos) else Stop(buf, pos) + 2
  }

  /** The target of a pointer into a kept stretch is the same name in both buffers. */
  lemma TargetStands(a: Message, b: Message, to: nat, lo: nat, hi: nat)
    requires lo <= hi && Same(a, lo, b, lo, hi - lo) && lo <= to && PlainName(a, to) && PlainEnd(a, to) <= hi
    ensures PlainName(b, to) && PlainEnd(b, to) <= hi && LabelsAt(b, to) == LabelsAt(a, to)
  {
    SamePart(a, lo, b, lo, hi - lo, to - lo, PlainEnd(a, to) - to);
    PlainStands(a, to, b, to);
  }

  lemma LabelsBeforeJump(a: Message, pa: nat, b: Message, pb: nat)
    requires MarkAt(a, Stop(a, pa)).Jump? && Same(a, pa, b, pb, Stop(a, pa) + 2 - pa)
    requires MarkAt(a, Stop(a, pa)).to < |b|
    ensures Stop(b, pb) == Stop(a, pa) - pa + pb && LabelsAt(b, pb) == LabelsAt(a, pa)
    ensures MarkAt(b, Stop(b, pb)) == MarkAt(a, Stop(a, pa))
  {
    var n, stop := Stop(a, pa) + 2 - pa, Stop(a, pa);
    SamePart(a, pa, b, pb, n, 0, n - 2);
    SamePart(a, pa, b, pb, n, n - 2, 2);
    JumpMoves(a, stop, b, stop - pa + pb);
    LabelsStand(a, pa, b, pb);
  }

  /** A pointer into a kept stretch stands wherever its bytes stand, to the same name. */
  lemma PointedStands(a: Message, pa: nat, b: Message, pb: nat, lo: nat, hi: nat)
    requires lo <= hi && Same(a, lo, b, lo, hi - lo) && PointedName(a, pa, lo, hi)
    requires Same(a, pa, b, pb, Stop(a, pa) + 2 - pa)
    ensures Stop(b, pb) == Stop(a, pa) - pa + pb && LabelsAt(b, pb) == LabelsAt(a, pa)
    ensures MarkAt(b, Stop(b, pb)) == MarkAt(a, Stop(a, pa)) && PointedName(b, pb, lo, hi)
    ensures LabelsAt(b, MarkAt(a, Stop(a, pa)).to) == LabelsAt(a, MarkAt(a, Stop(a, pa)).to)
  {
    TargetStands(a, b, MarkAt(a, Stop(a, pa)).to, lo, hi);
    LabelsBeforeJump(a, pa, b, pb);
  }

  lemma JumpMoves(a: Message, pa: nat, b: Message, pb: nat)
    requires MarkAt(a, pa).Jump? && Same(a, pa, b, pb, 2) && MarkAt(a, pa).to < |b|
    ensures MarkAt(b, pb) == MarkAt(a, pa)
  {
    SameAt(a, pa, b, pb, 2, 0);
    SameAt(a, pa, b, pb, 2, 1);
  }

  /** The same name, the end moved. */
  ghost predicate MovedReading(ra: Reading, pa: nat, rb: Reading, pb: nat) {
    if ra.NoName? then rb.NoName? else rb.Reading? && rb.name == ra.name && rb.next - pb == ra.next - pa
  }

  /** A local name reads the same after a move, and ends where its bytes end. */
  lemma LocalMoves(a: Message, pa: nat, b: Message, pb: nat, lo: nat, hi: nat, jumps: nat)
    requires lo <= hi && Same(a, lo, b, lo, hi - lo) && jumps > 0 && LocalName(a, pa, lo, hi)
    requires Same(a, pa, b, pb, LocalEnd(a, pa, lo, hi) - pa)
    ensures MovedReading(ReadRaw(a, pa, jumps), pa, ReadRaw(b, pb, jumps), pb)
    ensures ReadRaw(a, pa, jumps).Reading? ==> ReadRaw(a, pa, jumps).next == LocalEnd(a, pa, lo, hi)
  {
    if PlainName(a, pa) {
      PlainStands(a, pa, b, pb);
      ReadPlainName(a, pa, jumps);
      ReadPlainName(b, pb, jumps);
    } else {
      PointedStands(a, pa, b, pb, lo, hi);
      ReadPointedName(a, pa, lo, hi, jumps);
      ReadPointedName(b, pb, lo, hi, jumps);
    }
  }

  /** The same with any stretch of kept bytes that covers the name. */
  lemma LocalNameMoves(a: Message, pa: nat, b: Message, pb: nat, n: nat, lo: nat, hi: nat)
    requires lo <= hi && Same(a, lo, b, lo, hi - lo) && LocalName(a, pa, lo, hi)
    requires Same(a, pa, b, pb, n) && LocalEnd(a, pa, lo, hi) <= pa + n
    ensures MovedReading(ReadName(a, pa), pa, ReadName(b, pb), pb)
  {
    SamePart(a, pa, b, pb, n, 0, LocalEnd(a, pa, lo, hi) - pa);
    LocalMoves(a, pa, b, pb, lo, hi, MAX_POINTER_JUMPS);
  }

  /** And with the name `off` bytes into the stretch. */
  lemma InnerNameMoves(a: Message, from: nat, b: Message, at: nat, n: nat, off: nat, lo: nat, hi: nat)
    requires lo <= hi && Same(a, lo, b, lo, hi - lo) && Same(a, from, b, at, n) && off <= n
    requires LocalName(a, from + off, lo, hi) && LocalEnd(a, from + off, lo, hi) <= from + n
    ensures MovedReading(ReadName(a, from + off), from + off, ReadName(b, at + off), at + off)
  {
    SamePart(a, from, b, at, n, off, n - off);
    LocalNameMoves(a, from + off, b, at + off, n - off, lo, hi);
  }

  /** A name whose pointer leads to or past the end of the other buffer cannot be read there. */
  lemma CutNameLost(a: Message, pa: nat, b: Message, pb: nat, n: nat)
    requires MarkAt(a, Stop(a, pa)).Jump? && MarkAt(a, Stop(a, pa)).to >= |b|
    requires Same(a, pa, b, pb, n) && Stop(a, pa) + 2 <= pa + n
    ensures ReadName(b, pb) == NoName
  {
    SamePart(a, pa, b, pb, n, 0, Stop(a, pa) + 2 - pa);
    CutStops(a, pa, b, pb);
    StopsBroken(b, pb, MAX_POINTER_JUMPS);
  }
}
