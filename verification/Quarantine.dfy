/** The quarantine over whole runs: when a sequestrated host is let go, and when it never is. */
module Quarantine {
  import opened Sequences
  import opened Licence
  import opened LicenceRuns

  predicate InQuarantine(row: Option<Entry>) {
    row.Some? && row.value.sequestrated && row.value.verdict == Neutral
  }

  /** No settle pass up to this time can retest the row. */
  predicate HeldUntil(law: Law, e: Entry, now: nat) {
    ActiveDestroy(e.risk) || e.seqAt == 0 || now < e.seqAt + law.ttl
  }

  lemma HoldStep(law: Law, h: string, row: Option<Entry>, ev: Event, settles: bool)
    requires InQuarantine(row) && RowSound(law, h, row.value) && !PinsHost(h, ev) && HeldUntil(law, row.value, ev.now)
    ensures var next := HostStep(law, h, row, ev, settles);
            && InQuarantine(next) && next.value.points == 0
            && next.value.seqAt == row.value.seqAt && next.value.risk == row.value.risk
  {}

  /** An unpinned host in quarantine stays there, at zero points, through every event before its time
      is served; an active-destroy host, or one whose quarantine has no start, stays for good. */
  lemma {:induction false} QuarantineHolds(law: Law, h: string, s: Ledger, events: seq<Event>)
    requires law.Valid() && Sound(law, s) && NeverPins(h, events) && InQuarantine(At(s, h))
    requires forall i :: 0 <= i < |events| ==> HeldUntil(law, At(s, h).value, events[i].now)
    ensures var row := At(Run(law, s, events), h);
            InQuarantine(row) && row.value.points == 0 && row.value.seqAt == At(s, h).value.seqAt
    ensures Bites(Run(law, s, events).byHost, h)
    decreases |events|
  {
    if events != [] {
      var ev := events[0];
      assert !PinsHost(h, ev) && HeldUntil(law, At(s, h).value, ev.now);
      StepAt(law, s, ev, h);
      StepSound(law, s, ev);
      HoldStep(law, h, At(s, h), ev, SettlesAt(s, ev));
      forall i | 0 <= i < |events[1..]|
        ensures HeldUntil(law, At(Step(law, s, ev), h).value, events[1..][i].now)
      {
        assert HeldUntil(law, At(s, h).value, events[i + 1].now);
      }
      QuarantineHolds(law, h, Step(law, s, ev), events[1..]);
    } else {
      assert RowSound(law, h, s.byHost[h]);
    }
  }

  /** Only denials of the host reach the feed, and no pin. */
  predicate OnlyDenied(h: string, ev: Event) {
    !PinsHost(h, ev) && (ev.Row? && ev.host == h ==> ev.blocked)
  }

  /** No settle pass of the run comes at or after `release`. */
  ghost predicate UnsettledFrom(law: Law, s: Ledger, events: seq<Event>, release: nat)
    decreases |events|
  {
    events == [] || ((SettlesAt(s, events[0]) ==> events[0].now < release) &&
                     UnsettledFrom(law, Step(law, s, events[0]), events[1..], release))
  }

  lemma {:induction false} DeniedRowWaits(law: Law, h: string, s: Ledger, events: seq<Event>)
    requires h != "" && InQuarantine(At(s, h)) && At(s, h).value.seqAt > 0
    requires forall i :: 0 <= i < |events| ==> OnlyDenied(h, events[i])
    requires UnsettledFrom(law, s, events, At(s, h).value.seqAt + law.ttl)
    ensures At(Run(law, s, events), h) == At(s, h)
    decreases |events|
  {
    if events != [] {
      var ev := events[0];
      assert OnlyDenied(h, ev);
      StepAt(law, s, ev, h);
      DeniedRowWaits(law, h, Step(law, s, ev), events[1..]);
    }
  }

  /** The row was sequestrated by its own accidents, and none has been recorded since. */
  predicate Quiet(e: Entry) { e.seqAt > 0 && e.lastSeen <= e.seqAt && !ActiveDestroy(e.risk) }

  /** The first settle pass at or after the end of the quarantine restores the full licence, however
      often the host was asked for and denied meanwhile. */
  lemma RetestRestores(law: Law, h: string, s: Ledger, events: seq<Event>, last: Event)
    requires h != "" && InQuarantine(At(s, h)) && Quiet(At(s, h).value)
    requires forall i :: 0 <= i < |events| ==> OnlyDenied(h, events[i])
    requires UnsettledFrom(law, s, events, At(s, h).value.seqAt + law.ttl)
    requires OnlyDenied(h, last) && SettlesAt(Run(law, s, events), last)
    requires last.now >= At(s, h).value.seqAt + law.ttl
    ensures var row := At(Step(law, Run(law, s, events), last), h);
            && row == Some(At(s, h).value.(sequestrated := false, seqAt := 0, points := law.start(h), lastHeal := last.now))
    ensures !Bites(Step(law, Run(law, s, events), last).byHost, h)
  {
    DeniedRowWaits(law, h, s, events);
    StepAt(law, Run(law, s, events), last, h);
  }

  /** An accident that sequestrates starts the clock and is the last one heard: the row is quiet. */
  lemma SequestrationStartsClock(law: Law, h: string, s: Ledger, ev: Event)
    requires law.Valid() && Sound(law, s) && !PinsHost(h, ev) && ev.now > 0
    requires At(s, h).None? || (!At(s, h).value.sequestrated)
    requires var next := At(Step(law, s, ev), h); next.Some? && next.value.sequestrated
    ensures var e := At(Step(law, s, ev), h).value;
            && e.verdict == Neutral && e.seqAt == ev.now == e.lastSeen && e.source != Centauri
            && (!ActiveDestroy(e.risk) ==> Quiet(e))
  {
    StepAt(law, s, ev, h);
    assert At(s, h).Some? ==> RowSound(law, h, At(s, h).value);
  }

  lemma DestroyStep(law: Law, h: string, row: Option<Entry>, ev: Event, settles: bool)
    requires row.Some? && RowSound(law, h, row.value) && law.start(h) >= 1 && !PinsHost(h, ev)
    requires ActiveDestroy(row.value.risk)
    ensures var next := HostStep(law, h, row, ev, settles);
            next.Some? && ActiveDestroy(next.value.risk) && next.value.points <= row.value.points
  {}

  /** An active-destroy row never regains a point without a pin. */
  lemma {:induction false} ActiveDestroyNeverHeals(law: Law, h: string, s: Ledger, events: seq<Event>)
    requires law.Valid() && Sound(law, s) && NeverPins(h, events)
    requires At(s, h).Some? && ActiveDestroy(At(s, h).value.risk)
    ensures var row := At(Run(law, s, events), h); row.Some? && row.value.points <= At(s, h).value.points
    decreases |events|
  {
    if events != [] {
      var ev := events[0];
      assert !PinsHost(h, ev) && RowSound(law, h, s.byHost[h]);
      StepAt(law, s, ev, h);
      StepSound(law, s, ev);
      DestroyStep(law, h, At(s, h), ev, SettlesAt(s, ev));
      ActiveDestroyNeverHeals(law, h, Step(law, s, ev), events[1..]);
    }
  }

  /** What lets a quarantined row go: exactly its retest. A run's step frees an unpinned host if and
      only if it settles at a time when the clock was started, has run out, and the window was quiet. */
  lemma FreedExactly(law: Law, h: string, s: Ledger, ev: Event)
    requires law.Valid() && Sound(law, s) && !PinsHost(h, ev) && InQuarantine(At(s, h))
    ensures Bites(s.byHost, h)
    ensures !Bites(Step(law, s, ev).byHost, h) <==>
            && SettlesAt(s, ev)
            && (Accident(h, At(s, h), ev) ==> law.ttl / 4 == 0)
            && !ActiveDestroy(At(s, h).value.risk) && At(s, h).value.seqAt > 0
            && ev.now >= At(s, h).value.seqAt + law.ttl
            && (Accident(h, At(s, h), ev) || Since(ev.now, At(s, h).value.lastSeen) >= law.ttl / 4)
  {
    StepAt(law, s, ev, h);
    assert RowSound(law, h, s.byHost[h]);
  }

  // ---- Condemned by hand, then handed back ----

  /** The host pinned as distrusted, then the pin cleared. */
  ghost function Cleared(law: Law, h: string, s: Ledger, a: nat, b: nat): Ledger {
    Step(law, Step(law, s, PinHost(h, 2, a)), PinHost(h, 0, b))
  }

  /** The row has no quarantine clock that a settle pass could find run out. */
  predicate Clockless(row: Option<Entry>) {
    row.None? || ActiveDestroy(row.value.risk) || row.value.seqAt == 0
  }

  /** Neither pin touches the clock: the host is in quarantine, on whatever clock it had before. */
  lemma ClearedRow(law: Law, h: string, s: Ledger, a: nat, b: nat)
    requires law.Valid() && Sound(law, s) && h != ""
    ensures Sound(law, Cleared(law, h, s, a, b))
    ensures var row := At(Cleared(law, h, s, a, b), h);
            && InQuarantine(row) && row.value.lastSeen == b
            && (Clockless(row) <==> Clockless(At(s, h)))
            && (At(s, h).Some? ==> row.value.seqAt == At(s, h).value.seqAt)
  {
    var condemned := Step(law, s, PinHost(h, 2, a));
    StepSound(law, s, PinHost(h, 2, a));
    StepSound(law, condemned, PinHost(h, 0, b));
    StepAt(law, s, PinHost(h, 2, a), h);
    StepAt(law, condemned, PinHost(h, 0, b), h);
  }

  /** With a clock left from an earlier sequestration, a settle pass late enough lets the host go. */
  lemma ClearedPinRetests(law: Law, h: string, s: Ledger, a: nat, b: nat, now: nat)
    requires law.Valid() && Sound(law, s) && h != "" && !Clockless(At(s, h))
    ensures !Bites(Run(law, Cleared(law, h, s, a, b), [SettlePass(now)]).byHost, h) <==>
            now >= At(s, h).value.seqAt + law.ttl && Since(now, b) >= law.ttl / 4
  {
    ClearedRow(law, h, s, a, b);
    FreedExactly(law, h, Cleared(law, h, s, a, b), SettlePass(now));
    assert [SettlePass(now)][1..] == [];
  }

  /** A host condemned by hand and handed back is bitten for good, in every run without another pin, if
      and only if it had no clock before: it was never seen, or is of an active-destroy lane, or its row
      carries no start of a quarantine. */
  lemma ClearedPinIsPermanentIff(law: Law, h: string, s: Ledger, a: nat, b: nat)
    requires law.Valid() && Sound(law, s) && h != ""
    ensures (forall events :: NeverPins(h, events) ==> Bites(Run(law, Cleared(law, h, s, a, b), events).byHost, h))
            <==> Clockless(At(s, h))
  {
    var cleared := Cleared(law, h, s, a, b);
    ClearedRow(law, h, s, a, b);
    if Clockless(At(s, h)) {
      forall events | NeverPins(h, events) ensures Bites(Run(law, cleared, events).byHost, h) {
        QuarantineHolds(law, h, cleared, events);
      }
    } else {
      var now := At(s, h).value.seqAt + law.ttl + b + law.ttl;
      ClearedPinRetests(law, h, s, a, b, now);
      assert NeverPins(h, [SettlePass(now)]);
    }
  }
}
