/** The IPv6 egress latch: a capped leaky bucket of dial failures, a hysteresis latch over it, and
    a probe cadence that backs off while the latch is set. */
module Egress {

  const DEAD_AFTER: nat := 4
  const FAIL_CAP: nat := 8
  const PROBE_EVERY: nat := 64
  const REVIVE_AFTER: nat := 2
  const BACKOFF_MAX_SHIFT: nat := 5
  /** The request counter is a 64-bit atomic and wraps. */
  const U64: nat := 0x1_0000_0000_0000_0000
  type u64 = n: nat | n < U64
  /** The widest gap between two probes. */
  const MAX_GAP: nat := 2048

  function BucketStep(fails: nat, ok: bool): (r: nat)
    ensures fails <= FAIL_CAP ==> r <= FAIL_CAP
  {
    if ok then (if fails == 0 then 0 else fails - 1)
    else if fails + 1 < FAIL_CAP then fails + 1 else FAIL_CAP
  }

  function Shl(x: nat, shift: nat): nat {
    if shift == 0 then x else 2 * Shl(x, shift - 1)
  }

  function CadenceGap(shift: nat): nat {
    Shl(PROBE_EVERY, if shift < BACKOFF_MAX_SHIFT then shift else BACKOFF_MAX_SHIFT)
  }

  lemma GapValues(shift: nat)
    ensures shift == 0 ==> CadenceGap(shift) == 64
    ensures shift == 1 ==> CadenceGap(shift) == 128
    ensures shift == 2 ==> CadenceGap(shift) == 256
    ensures shift == 3 ==> CadenceGap(shift) == 512
    ensures shift == 4 ==> CadenceGap(shift) == 1024
    ensures shift >= 5 ==> CadenceGap(shift) == 2048
  {
    assert Shl(PROBE_EVERY, 1) == 128;
    assert Shl(PROBE_EVERY, 2) == 256;
    assert Shl(PROBE_EVERY, 3) == 512;
    assert Shl(PROBE_EVERY, 4) == 1024;
    assert Shl(PROBE_EVERY, 5) == 2048;
  }

  lemma WidestIsCommon(n: nat)
    requires n % MAX_GAP == 0
    ensures n % 64 == 0 && n % 128 == 0 && n % 256 == 0 && n % 512 == 0 && n % 1024 == 0
  {
    var k := n / MAX_GAP;
    assert n % 1024 == 0 by { assert n == 1024 * (2 * k); }
    assert n % 512 == 0 by { assert n == 512 * (4 * k); }
    assert n % 256 == 0 by { assert n == 256 * (8 * k); }
    assert n % 128 == 0 by { assert n == 128 * (16 * k); }
    assert n % 64 == 0 by { assert n == 64 * (32 * k); }
  }

  /** Every gap is a power of two from 64 to 2048, so it divides the widest one. */
  lemma GapDivides(shift: nat, n: nat)
    ensures 1 <= CadenceGap(shift) <= MAX_GAP
    ensures shift >= BACKOFF_MAX_SHIFT ==> CadenceGap(shift) == MAX_GAP
    ensures n % MAX_GAP == 0 ==> n % CadenceGap(shift) == 0
  {
    GapValues(shift);
    if n % MAX_GAP == 0 { WidestIsCommon(n); }
  }

  predicate ShouldAttemptWithGap(dead: bool, asked: nat, gap: nat) {
    var g := if gap == 0 then 1 else gap;
    !dead || asked % g == 0
  }

  /** Wrapping increment of the request counter. */
  function Increment(n: u64): u64 { if n + 1 == U64 then 0 else n + 1 }

  /** The five process-wide counters. */
  datatype Latch = Latch(fails: nat, asked: u64, dead: bool, revivals: nat, backoff: nat)

  const Fresh: Latch := Latch(0, 0, false, 0, 0)

  datatype Event = Dial(isV6: bool, ok: bool) | Ask | Reset

  function RecordDial(s: Latch, isV6: bool, ok: bool): Latch {
    if !isV6 then s
    else if ok then
      var drained := s.(fails := BucketStep(s.fails, true));
      if !s.dead then drained
      else if s.revivals + 1 >= REVIVE_AFTER then drained.(dead := false, revivals := 0, backoff := 0)
      else drained.(revivals := s.revivals + 1)
    else
      var f := BucketStep(s.fails, false);
      s.(fails := f, revivals := 0, dead := s.dead || f >= DEAD_AFTER)
  }

  /** The answer a request gets in state `s`. */
  predicate Attempts(s: Latch) {
    if !s.dead then true
    else if s.backoff == 0 then ShouldAttemptWithGap(true, s.asked, PROBE_EVERY)
    else ShouldAttemptWithGap(true, s.asked, CadenceGap(s.backoff))
  }

  function AskStep(s: Latch): Latch {
    if !s.dead then s
    else
      var counted := s.(asked := Increment(s.asked));
      if Attempts(s) && s.backoff < BACKOFF_MAX_SHIFT then counted.(backoff := s.backoff + 1)
      else counted
  }

  function Step(s: Latch, e: Event): Latch {
    match e
    case Dial(isV6, ok) => RecordDial(s, isV6, ok)
    case Ask => AskStep(s)
    case Reset => Fresh
  }

  function Run(s: Latch, evs: seq<Event>): Latch {
    if evs == [] then s else Step(Run(s, evs[..|evs| - 1]), evs[|evs| - 1])
  }

  /** The counters as the source keeps them. */
  class EgressLatch {
    var fails: nat
    var asked: u64
    var dead: bool
    var revivals: nat
    var backoff: nat

    function State(): Latch reads this { Latch(fails, asked, dead, revivals, backoff) }

    constructor ()
      ensures State() == Fresh
    {
      fails, asked, dead, revivals, backoff := 0, 0, false, 0, 0;
    }

    method Record(isV6: bool, ok: bool)
      modifies this
      ensures State() == Step(old(State()), Dial(isV6, ok))
    {
      if !isV6 { return; }
      if ok {
        fails := BucketStep(fails, true);
        if dead {
          revivals := revivals + 1;
          if revivals >= REVIVE_AFTER {
            dead := false;
            revivals := 0;
            backoff := 0;
          }
        }
      } else {
        revivals := 0;
        fails := BucketStep(fails, false);
        if fails >= DEAD_AFTER { dead := true; }
      }
    }

    method ShouldAttempt() returns (attempt: bool)
      modifies this
      ensures attempt == old(Attempts(State()))
      ensures State() == Step(old(State()), Ask)
    {
      if !dead { return true; }
      var n := asked;
      asked := Increment(asked);
      if backoff == 0 {
        attempt := ShouldAttemptWithGap(true, n, PROBE_EVERY);
      } else {
        attempt := ShouldAttemptWithGap(true, n, CadenceGap(backoff));
      }
      if attempt && backoff < BACKOFF_MAX_SHIFT { backoff := backoff + 1; }
    }

    method ResetForNewNetwork()
      modifies this
      ensures State() == Step(old(State()), Reset)
    {
      fails, asked, dead, revivals, backoff := 0, 0, false, 0, 0;
    }
  }

  // ---- What the latch has seen: the IPv6 outcomes, and nothing else ----

  /** The IPv6 dial outcomes among `evs`, in order; `true` is a success. */
  function Outcomes(evs: seq<Event>): seq<bool> {
    if evs == [] then []
    else
      var before := Outcomes(evs[..|evs| - 1]);
      var e := evs[|evs| - 1];
      if e.Dial? && e.isV6 then before + [e.ok] else before
  }

  ghost predicate ResetFree(evs: seq<Event>) {
    forall i :: 0 <= i < |evs| ==> !evs[i].Reset?
  }

  /** The latch driven by bare outcomes. */
  ghost function Drive(o: seq<bool>): Latch {
    if o == [] then Fresh else RecordDial(Drive(o[..|o| - 1]), true, o[|o| - 1])
  }

  ghost predicate SameVerdict(a: Latch, b: Latch) {
    a.fails == b.fails && a.dead == b.dead && a.revivals == b.revivals
  }

  /** Requests and IPv4 outcomes never move the verdict: since the last reset it is a function of
      the IPv6 outcomes alone. */
  lemma {:induction false} VerdictIsOutcomes(evs: seq<Event>)
    requires ResetFree(evs)
    ensures SameVerdict(Run(Fresh, evs), Drive(Outcomes(evs)))
  {
    if evs != [] {
      var before := evs[..|evs| - 1];
      VerdictIsOutcomes(before);
      var e := evs[|evs| - 1];
      if e.Dial? && e.isV6 {
        assert Outcomes(evs)[..|Outcomes(evs)| - 1] == Outcomes(before);
      }
    }
  }

  /** Failures minus successes over a window of outcomes. */
  function Excess(o: seq<bool>): int {
    if o == [] then 0 else Excess(o[..|o| - 1]) + (if o[|o| - 1] then -1 else 1)
  }

  ghost predicate EverLatched(o: seq<bool>) {
    exists n: nat :: n <= |o| && Drive(o[..n]).dead
  }

  ghost predicate HasBadWindow(o: seq<bool>) {
    exists i: nat, j: nat :: i <= j <= |o| && Excess(o[i..j]) >= DEAD_AFTER
  }

  lemma EverLatchedPrefix(o: seq<bool>, n: nat)
    requires n <= |o| && !EverLatched(o)
    ensures !EverLatched(o[..n])
  {
    forall m: nat | m <= n ensures !Drive(o[..n][..m]).dead {
      assert o[..n][..m] == o[..m];
    }
  }

  /** While the latch has never been set, the bucket is the largest excess of any window that ends
      now (the empty window included). */
  lemma {:induction false} BucketIsWorstSuffix(o: seq<bool>) returns (from: nat)
    requires !EverLatched(o)
    ensures Drive(o).fails < DEAD_AFTER
    ensures from <= |o| && Excess(o[from..]) == Drive(o).fails
    ensures forall i: nat :: i <= |o| ==> Excess(o[i..]) <= Drive(o).fails
  {
    if o == [] { from := 0; return; }
    var before, last := o[..|o| - 1], o[|o| - 1];
    EverLatchedPrefix(o, |o| - 1);
    from := BucketIsWorstSuffix(before);
    assert o[..|o|] == o && !Drive(o).dead;
    forall i: nat | i < |o|
      ensures Excess(o[i..]) == Excess(before[i..]) + (if last then -1 else 1)
    {
      assert o[i..][..|o| - i - 1] == before[i..];
    }
    if last && Drive(before).fails == 0 { from := |o|; }
  }

  lemma LatchesIffBadWindow(o: seq<bool>)
    ensures EverLatched(o) <==> HasBadWindow(o)
  {
    if EverLatched(o) {
      var n := FirstLatched(o);
      var from := BucketIsWorstSuffix(o[..n - 1]);
      assert o[..n][..n - 1] == o[..n - 1];
      assert o[from..n][..n - 1 - from] == o[..n - 1][from..];
      assert Excess(o[from..n]) >= DEAD_AFTER;
    } else {
      forall i: nat, j: nat | i <= j <= |o| ensures Excess(o[i..j]) < DEAD_AFTER {
        EverLatchedPrefix(o, j);
        var _ := BucketIsWorstSuffix(o[..j]);
        assert o[..j][i..] == o[i..j];
      }
    }
  }

  /** The first outcome that sets the latch finds it never set before. */
  lemma {:induction false} LeastLatched(o: seq<bool>, m: nat) returns (n: nat)
    requires m <= |o| && Drive(o[..m]).dead
    ensures n <= m && Drive(o[..n]).dead && forall k: nat :: k < n ==> !Drive(o[..k]).dead
    decreases m
  {
    if k: nat :| k < m && Drive(o[..k]).dead {
      n := LeastLatched(o, k);
    } else {
      n := m;
    }
  }

  lemma EarlierLatched(o: seq<bool>, n: nat) returns (k: nat)
    requires 0 < n <= |o| && EverLatched(o[..n - 1])
    ensures k < n && Drive(o[..k]).dead
  {
    k :| k <= |o[..n - 1]| && Drive(o[..n - 1][..k]).dead;
    assert o[..n - 1][..k] == o[..k];
  }

  lemma FirstLatched(o: seq<bool>) returns (n: nat)
    requires EverLatched(o)
    ensures 0 < n <= |o| && Drive(o[..n]).dead && !EverLatched(o[..n - 1])
  {
    var m: nat :| m <= |o| && Drive(o[..m]).dead;
    n := LeastLatched(o, m);
    assert n > 0 by { assert o[..0] == []; }
    if EverLatched(o[..n - 1]) { var k := EarlierLatched(o, n); }
  }

  ghost predicate EverDead(evs: seq<Event>) {
    exists n: nat :: n <= |evs| && Run(Fresh, evs[..n]).dead
  }

  lemma EverDeadStep(evs: seq<Event>, e: Event)
    ensures EverDead(evs + [e]) <==> EverDead(evs) || Run(Fresh, evs + [e]).dead
  {
    var all := evs + [e];
    assert all[..|all|] == all;
    forall n: nat | n <= |evs| ensures all[..n] == evs[..n] {}
    if EverDead(all) {
      var n: nat :| n <= |all| && Run(Fresh, all[..n]).dead;
      assert n <= |evs| ==> Run(Fresh, evs[..n]).dead;
    }
    if EverDead(evs) {
      var n: nat :| n <= |evs| && Run(Fresh, evs[..n]).dead;
      assert Run(Fresh, all[..n]).dead;
    }
  }

  lemma EverLatchedAppend(o: seq<bool>, x: bool)
    ensures EverLatched(o + [x]) <==> EverLatched(o) || Drive(o + [x]).dead
  {
    var all := o + [x];
    assert all[..|all|] == all;
    forall n: nat | n <= |o| ensures all[..n] == o[..n] {}
    if EverLatched(all) {
      var n: nat :| n <= |all| && Drive(all[..n]).dead;
      assert n <= |o| ==> Drive(o[..n]).dead;
    }
    if EverLatched(o) {
      var n: nat :| n <= |o| && Drive(o[..n]).dead;
      assert Drive(all[..n]).dead;
    }
  }

  lemma {:induction false} EverDeadIsEverLatched(evs: seq<Event>)
    requires ResetFree(evs)
    ensures EverDead(evs) <==> EverLatched(Outcomes(evs))
  {
    VerdictIsOutcomes(evs);
    if evs == [] {
      assert evs[..0] == evs;
    } else {
      var before, e := evs[..|evs| - 1], evs[|evs| - 1];
      EverDeadIsEverLatched(before);
      assert evs == before + [e];
      EverDeadStep(before, e);
      if e.Dial? && e.isV6 {
        EverLatchedAppend(Outcomes(before), e.ok);
      } else if Run(Fresh, evs).dead {
        assert Run(Fresh, before).dead;
        assert before[..|before|] == before;
      }
    }
  }

  /** A reset makes the past irrelevant. */
  lemma {:induction false} ResetForgets(s: Latch, before: seq<Event>, after: seq<Event>)
    ensures Run(s, before + [Reset] + after) == Run(Fresh, after)
  {
    var all := before + [Reset] + after;
    if after == [] {
      assert all[..|all| - 1] == before;
    } else {
      assert all[..|all| - 1] == before + [Reset] + after[..|after| - 1];
      ResetForgets(s, before, after[..|after| - 1]);
    }
  }

  /** Since the last reset the latch has been set at some point if and only if some contiguous
      window of IPv6 outcomes has failures exceeding successes by DEAD_AFTER. */
  lemma LatchedSinceReset(evs: seq<Event>)
    requires ResetFree(evs)
    ensures EverDead(evs) <==> HasBadWindow(Outcomes(evs))
  {
    EverDeadIsEverLatched(evs);
    LatchesIffBadWindow(Outcomes(evs));
  }

  // ---- The bucket, from the outcomes alone ----

  /** Some window ending now has at least `k` more failures than successes, and no later start gives one
      that fell short of `k` by more than the cap: the bucket holds `k` or more. */
  ghost predicate Filled(o: seq<bool>, k: int) {
    exists from: nat :: FilledFrom(o, k, from)
  }

  ghost predicate FilledFrom(o: seq<bool>, k: int, from: nat) {
    && from <= |o| && Excess(o[from..]) >= k
    && forall u: nat :: from <= u <= |o| ==> Excess(o[u..]) >= k - 8
  }

  lemma ExcessSnoc(o: seq<bool>, x: bool, u: nat)
    requires u <= |o|
    ensures Excess((o + [x])[u..]) == Excess(o[u..]) + (if x then -1 else 1)
  {
    var w := (o + [x])[u..];
    assert w[..|w| - 1] == o[u..] && w[|w| - 1] == x;
  }

  lemma FilledFromSnoc(o: seq<bool>, x: bool, k: int, from: nat)
    requires from <= |o| && 1 <= k <= 8
    ensures FilledFrom(o + [x], k, from) <==> FilledFrom(o, if x then k + 1 else k - 1, from)
  {
    var n, d := o + [x], if x then -1 else 1;
    forall u: nat | u <= |o| ensures Excess(n[u..]) == Excess(o[u..]) + d { ExcessSnoc(o, x, u); }
    assert n[|n|..] == [] && o[|o|..] == [];
    if FilledFrom(n, k, from) {
      forall u: nat | from <= u <= |o| ensures Excess(o[u..]) >= k - d - 8 { assert Excess(n[u..]) >= k - 8; }
    }
    if FilledFrom(o, k - d, from) {
      forall u: nat | from <= u <= |n| ensures Excess(n[u..]) >= k - 8 {
        if u <= |o| { assert Excess(o[u..]) >= k - d - 8; }
      }
    }
  }

  /** An empty window never fills the bucket. */
  lemma FilledFromEnd(o: seq<bool>, k: int)
    ensures FilledFrom(o, k, |o|) <==> k <= 0
  {
    assert o[|o|..] == [];
  }

  lemma FilledSnoc(o: seq<bool>, x: bool, k: int)
    requires 1 <= k <= 8
    ensures Filled(o + [x], k) <==> Filled(o, if x then k + 1 else k - 1)
  {
    var next := if x then k + 1 else k - 1;
    if from: nat :| FilledFrom(o + [x], k, from) {
      FilledFromEnd(o + [x], k);
      FilledFromSnoc(o, x, k, from);
    }
    if from: nat :| FilledFrom(o, next, from) { FilledFromSnoc(o, x, k, from); }
  }

  /** Nothing fills it beyond eight, and everything fills it to nothing. */
  lemma FilledBounds(o: seq<bool>)
    ensures Filled(o, 0) && !Filled(o, 9)
  {
    FilledFromEnd(o, 0);
    assert o[|o|..] == [];
  }

  /** The bucket after any outcomes, latched or not: failures less successes, kept between 0 and 8. It
      holds `k` or more exactly when some window ending now has an excess of `k`, none of whose own
      endings lost so much that the cap cut it off. */
  lemma {:induction false} BucketExactly(o: seq<bool>, k: int)
    requires 0 <= k <= 9
    ensures Drive(o).fails <= 8
    ensures Drive(o).fails >= k <==> Filled(o, k)
  {
    FilledBounds(o);
    if o == [] {
      if from: nat :| FilledFrom(o, k, from) { FilledFromEnd(o, k); }
    } else {
      var before, x := o[..|o| - 1], o[|o| - 1];
      assert o == before + [x];
      BucketExactly(before, 0);
      if 1 <= k <= 8 {
        FilledSnoc(before, x, k);
        BucketExactly(before, if x then k + 1 else k - 1);
      }
    }
  }

  // ---- The latch, exactly ----

  ghost predicate TwoInARow(o: seq<bool>) {
    exists k: nat :: k + 1 < |o| && o[k] && o[k + 1]
  }

  /** Outcome `i` is a failure that filled the bucket to the threshold, and the successes after it never
      came two in a row. */
  ghost predicate Condemns(o: seq<bool>, i: nat) {
    i < |o| && !o[i] && Filled(o[..i + 1], 4) && !TwoInARow(o[i + 1..])
  }

  lemma AppendKeepsCondemns(o: seq<bool>, x: bool, i: nat)
    requires i < |o|
    ensures Condemns(o + [x], i) <==>
            Condemns(o, i) && !(x && o[|o| - 1])
  {
    var a, b := o[i + 1..], (o + [x])[i + 1..];
    assert b == a + [x];
    assert (o + [x])[..i + 1] == o[..i + 1];
    if TwoInARow(a) {
      var k: nat :| k + 1 < |a| && a[k] && a[k + 1];
      assert b[k] && b[k + 1];
    }
    if x && i + 1 < |o| && o[|o| - 1] {
      assert b[|a| - 1] && b[|a| - 1 + 1];
    }
    if TwoInARow(b) {
      var k: nat :| k + 1 < |b| && b[k] && b[k + 1];
      assert k + 1 < |a| ==> a[k] && a[k + 1];
    }
  }

  ghost predicate Condemned(o: seq<bool>) {
    exists i: nat :: Condemns(o, i)
  }

  lemma CondemnsLast(o: seq<bool>, x: bool)
    ensures Condemns(o + [x], |o|) <==> !x && Drive(o + [x]).fails >= DEAD_AFTER
  {
    var n := o + [x];
    BucketExactly(n, 4);
    assert n[|o| + 1..] == [] && n[..|o| + 1] == n;
  }

  lemma StaysCondemned(o: seq<bool>, x: bool)
    requires Condemned(o) && (x ==> !o[|o| - 1])
    ensures Condemned(o + [x])
  {
    var i: nat :| Condemns(o, i);
    AppendKeepsCondemns(o, x, i);
  }

  lemma WasCondemned(o: seq<bool>, x: bool, i: nat)
    requires Condemns(o + [x], i)
    ensures x ==> Condemned(o) && !o[|o| - 1]
    ensures !x ==> Condemned(o) || Drive(o + [x]).fails >= DEAD_AFTER
  {
    if i < |o| {
      AppendKeepsCondemns(o, x, i);
    } else {
      assert i == |o|;
      CondemnsLast(o, x);
    }
  }

  /** The latch is set exactly when some failure condemned the family and no two successes in a row
      followed it; while it is set, the revival credit is the run of trailing successes. */
  lemma {:induction false} DeadExactly(o: seq<bool>)
    ensures Drive(o).dead <==> Condemned(o)
    ensures Drive(o).dead ==> |o| > 0 && Drive(o).revivals == (if o[|o| - 1] then 1 else 0)
    ensures !Drive(o).dead ==> Drive(o).revivals == 0
  {
    if o != [] {
      var before, x := o[..|o| - 1], o[|o| - 1];
      DeadExactly(before);
      assert o == before + [x];
      CondemnsLast(before, x);
      if Condemned(before) && !(x && before[|before| - 1]) { StaysCondemned(before, x); }
      if Condemned(o) {
        var i: nat :| Condemns(o, i);
        WasCondemned(before, x, i);
      }
    }
  }

  /** The bucket through all events since a reset. */
  lemma BucketSinceReset(evs: seq<Event>, k: int)
    requires ResetFree(evs) && 0 <= k <= 8
    ensures Run(Fresh, evs).fails >= k <==> Filled(Outcomes(evs), k)
  {
    VerdictIsOutcomes(evs);
    BucketExactly(Outcomes(evs), k);
  }

  /** While the latch is clear, whether it never was set or two successes lifted it, the next outcome sets
      it exactly when it is a failure and the outcomes so far left three or more in the bucket. */
  lemma LatchesAgainExactly(o: seq<bool>, x: bool)
    requires !Drive(o).dead
    ensures Drive(o + [x]).dead <==> !x && Filled(o, 3)
  {
    assert (o + [x])[..|o|] == o;
    BucketExactly(o, 3);
  }

  /** A long outage is not forgiven at once: after eight failures and two successes the latch is clear,
      and one more failure sets it. */
  lemma OutageIsRemembered(o: seq<bool>)
    requires o == [false, false, false, false, false, false, false, false, true, true]
    ensures !Drive(o).dead && Drive(o + [false]).dead
  {
    var n := o + [false];
    assert o[..9] == [false, false, false, false, false, false, false, false, true];
    assert n[..10] == o;
    var f := [false, false, false, false, false, false, false, false];
    assert o[..8] == f && o[..9][..8] == f;
    AllFailures(f);
  }

  lemma {:induction false} AllFailures(o: seq<bool>)
    requires forall i :: 0 <= i < |o| ==> !o[i]
    ensures Drive(o).fails == (if |o| < 8 then |o| else 8) && (Drive(o).dead <==> |o| >= 4) && Drive(o).revivals == 0
  {
    if o != [] { AllFailures(o[..|o| - 1]); }
  }

  /** A set latch lifts at an event exactly when the event is a reset, or the second of two
      successes with no IPv6 failure between them. */
  lemma LiftsExactly(evs: seq<Event>, e: Event)
    requires ResetFree(evs) && Run(Fresh, evs).dead
    ensures Outcomes(evs) != []
    ensures !Step(Run(Fresh, evs), e).dead <==>
            e.Reset? || (e == Dial(true, true) && Outcomes(evs)[|Outcomes(evs)| - 1])
  {
    VerdictIsOutcomes(evs);
    DeadExactly(Outcomes(evs));
  }

  // ---- The probe cadence ----

  function Asks(evs: seq<Event>): nat {
    if evs == [] then 0 else (if evs[0].Ask? then 1 else 0) + Asks(evs[1..])
  }

  /** Which requests are attempted, in numbers: all while the latch is clear; while it is set, those whose
      index is a multiple of 64, doubled for every probe spent, up to 2048. */
  lemma AttemptsExactly(s: Latch)
    ensures !s.dead ==> Attempts(s)
    ensures s.dead ==>
              (Attempts(s) <==>
               s.asked % (if s.backoff == 0 then 64 else if s.backoff == 1 then 128 else if s.backoff == 2 then 256
                          else if s.backoff == 3 then 512 else if s.backoff == 4 then 1024 else 2048) == 0)
  {
    GapValues(s.backoff);
  }

  /** The rule itself: a live family is always tried, a dead one at every multiple of the gap; a gap of
      nothing never silences it. */
  lemma GapRule(dead: bool, asked: nat, gap: nat)
    ensures ShouldAttemptWithGap(dead, asked, gap) <==> !dead || gap == 0 || asked % gap == 0
  {}

  /** How many of the requests in `evs`, run from `s`, are attempted. */
  ghost function AttemptCount(s: Latch, evs: seq<Event>): nat
    decreases evs
  {
    if evs == [] then 0
    else (if evs[0].Ask? && Attempts(s) then 1 else 0) + AttemptCount(Step(s, evs[0]), evs[1..])
  }

  /** Requests left before the counter next reaches a multiple of the widest gap. */
  function UntilProbe(asked: u64): nat { (MAX_GAP - asked % MAX_GAP) % MAX_GAP }

  /** Wrapping at 2^64 does not disturb the cadence. */
  lemma NextAsked(asked: u64)
    ensures Increment(asked) % MAX_GAP == if asked % MAX_GAP == MAX_GAP - 1 then 0 else asked % MAX_GAP + 1
  {}

  lemma {:induction false} SilenceIsShort(s: Latch, evs: seq<Event>)
    requires AttemptCount(s, evs) == 0
    ensures Asks(evs) <= UntilProbe(s.asked)
    decreases evs
  {
    if evs != [] {
      GapDivides(s.backoff, s.asked);
      SilenceIsShort(Step(s, evs[0]), evs[1..]);
      if evs[0].Ask? {
        assert s.dead && s.asked % MAX_GAP != 0;
        NextAsked(s.asked);
      }
    }
  }

  /** Whatever dials, backoff steps and resets happen between them, and from whatever state, 2048
      requests contain an attempt. */
  lemma ProbingIsInevitable(s: Latch, evs: seq<Event>)
    requires Asks(evs) >= MAX_GAP
    ensures AttemptCount(s, evs) >= 1
  {
    if AttemptCount(s, evs) == 0 { SilenceIsShort(s, evs); }
  }

  ghost function Asking(n: nat): seq<Event> {
    if n == 0 then [] else [Ask] + Asking(n - 1)
  }

  /** 2048 cannot be improved: fully backed off, 2047 requests can pass without an attempt. */
  lemma {:induction false} SilenceCanLast(s: Latch, n: nat)
    requires s.dead && s.backoff == BACKOFF_MAX_SHIFT && n <= UntilProbe(s.asked)
    ensures Asks(Asking(n)) == n && AttemptCount(s, Asking(n)) == 0
    decreases n
  {
    if n > 0 {
      GapDivides(s.backoff, s.asked);
      NextAsked(s.asked);
      assert Asking(n)[1..] == Asking(n - 1);
      SilenceCanLast(Step(s, Ask), n - 1);
    }
  }

  /** Every state passed through, first and last included, is latched. */
  ghost predicate LatchedThroughout(s: Latch, evs: seq<Event>)
    decreases evs
  {
    s.dead && (evs == [] || LatchedThroughout(Step(s, evs[0]), evs[1..]))
  }

  /** Multiples of the widest gap among `n` consecutive counter values from `asked`. */
  function Multiples(asked: u64, n: nat): int {
    (asked % MAX_GAP + n + MAX_GAP - 1) / MAX_GAP - (asked % MAX_GAP + MAX_GAP - 1) / MAX_GAP
  }

  lemma MultiplesStep(asked: u64, n: nat)
    requires n > 0
    ensures Multiples(asked, n) ==
            Multiples(Increment(asked), n - 1) + (if asked % MAX_GAP == 0 then 1 else 0)
  {
    NextAsked(asked);
    var r := asked % MAX_GAP;
    if r == 2047 {
      assert (r + n + 2047) / 2048 == (n - 1 + 2047) / 2048 + 1;
    } else if r == 0 {
      assert (r + n + 2047) / 2048 == (1 + (n - 1) + 2047) / 2048;
    } else {
      assert (r + n + 2047) / 2048 == (r + 1 + (n - 1) + 2047) / 2048;
    }
  }

  lemma {:induction false} ProbesAreBounded(s: Latch, evs: seq<Event>)
    requires LatchedThroughout(s, evs) && s.backoff <= BACKOFF_MAX_SHIFT
    ensures AttemptCount(s, evs) <= BACKOFF_MAX_SHIFT - s.backoff + Multiples(s.asked, Asks(evs))
    decreases evs
  {
    if evs != [] {
      var t := Step(s, evs[0]);
      ProbesAreBounded(t, evs[1..]);
      match evs[0]
      case Dial(_, _) =>
        assert t.asked == s.asked && t.backoff == s.backoff;
      case Ask =>
        GapDivides(s.backoff, s.asked);
        MultiplesStep(s.asked, Asks(evs));
      case Reset =>
        assert false;
    }
  }

  /** Within one unbroken latched stretch the backoff counts the probes spent, up to its cap of five. */
  lemma {:induction false} BackoffCountsProbes(s: Latch, evs: seq<Event>)
    requires LatchedThroughout(s, evs) && s.backoff <= 5
    ensures RunFrom(s, evs).backoff ==
            if s.backoff + AttemptCount(s, evs) < 5 then s.backoff + AttemptCount(s, evs) else 5
    decreases evs
  {
    if evs != [] {
      match evs[0]
      case Dial(_, _) =>
        assert Step(s, evs[0]).backoff == s.backoff;
        BackoffCountsProbes(Step(s, evs[0]), evs[1..]);
      case Ask => BackoffCountsProbes(Step(s, evs[0]), evs[1..]);
      case Reset => assert false;
    }
  }

  /** The run, first event first. */
  ghost function RunFrom(s: Latch, evs: seq<Event>): Latch
    decreases evs
  {
    if evs == [] then s else RunFrom(Step(s, evs[0]), evs[1..])
  }

  lemma {:induction false} RunFromSnoc(s: Latch, evs: seq<Event>, e: Event)
    ensures RunFrom(s, evs + [e]) == Step(RunFrom(s, evs), e)
    decreases evs
  {
    if evs == [] {
      assert [e][1..] == [] && [] + [e] == [e];
    } else {
      assert (evs + [e])[1..] == evs[1..] + [e];
      RunFromSnoc(Step(s, evs[0]), evs[1..], e);
    }
  }

  lemma {:induction false} RunFromIsRun(s: Latch, evs: seq<Event>)
    ensures RunFrom(s, evs) == Run(s, evs)
  {
    if evs != [] {
      RunFromIsRun(s, evs[..|evs| - 1]);
      RunFromSnoc(s, evs[..|evs| - 1], evs[|evs| - 1]);
      assert evs == evs[..|evs| - 1] + [evs[|evs| - 1]];
    }
  }

  lemma BackoffIsProbes(s: Latch, evs: seq<Event>)
    requires LatchedThroughout(s, evs) && s.backoff == 0
    ensures Run(s, evs).backoff == if AttemptCount(s, evs) < 5 then AttemptCount(s, evs) else 5
  {
    BackoffCountsProbes(s, evs);
    RunFromIsRun(s, evs);
  }

  /** Within one unbroken latched stretch N requests make at most 6 + N/2048 attempts. */
  lemma StretchBound(s: Latch, evs: seq<Event>)
    requires LatchedThroughout(s, evs) && s.backoff <= BACKOFF_MAX_SHIFT
    ensures AttemptCount(s, evs) <= 6 + Asks(evs) / MAX_GAP
  {
    ProbesAreBounded(s, evs);
  }

  /** The backoff never passes its cap, and is spent only while the latch is set. */
  lemma {:induction false} BackoffBounded(evs: seq<Event>)
    ensures Run(Fresh, evs).backoff <= BACKOFF_MAX_SHIFT
    ensures Run(Fresh, evs).fails <= FAIL_CAP
    ensures !Run(Fresh, evs).dead ==> Run(Fresh, evs).backoff == 0
  {
    if evs != [] { BackoffBounded(evs[..|evs| - 1]); }
  }
}
