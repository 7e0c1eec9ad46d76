/** The laws of the licence in plain numbers: what a pin does to every later lookup, what a series of
    accidents costs, how fast points come back, and when the ledger listens. */
module LicenceLaws {
  import opened Sequences
  import opened Licence
  import opened LicenceRuns
  import opened Quarantine

  // ---- Pins decide every lookup ----

  predicate PinnedAs(row: Option<Entry>, v: Verdict) { row.Some? && row.value.verdict == v }

  lemma PinStays(law: Law, h: string, row: Option<Entry>, ev: Event, settles: bool, v: Verdict)
    requires PinnedAs(row, v) && !PinsHost(h, ev)
    ensures PinnedAs(HostStep(law, h, row, ev, settles), v)
  {}

  /** What the lookups of `h` in the run add to the count of bites. */
  ghost function Bitten(law: Law, h: string, s: Ledger, events: seq<Event>): int
    decreases |events|
  {
    if events == [] then 0
    else
      (if events[0].Lookup? && events[0].host == h then Step(law, s, events[0]).teeth - s.teeth else 0) +
      Bitten(law, h, Step(law, s, events[0]), events[1..])
  }

  function Lookups(h: string, events: seq<Event>): nat {
    if events == [] then 0
    else (if events[0].Lookup? && events[0].host == h then 1 else 0) + Lookups(h, events[1..])
  }

  lemma {:induction false} TrustedUnbitten(law: Law, h: string, s: Ledger, events: seq<Event>)
    requires PinnedAs(At(s, h), Trusted) && NeverPins(h, events)
    ensures Bitten(law, h, s, events) == 0 && !Bites(Run(law, s, events).byHost, h)
    decreases |events|
  {
    if events != [] {
      StepAt(law, s, events[0], h);
      assert !PinsHost(h, events[0]);
      PinStays(law, h, At(s, h), events[0], SettlesAt(s, events[0]), Trusted);
      TrustedUnbitten(law, h, Step(law, s, events[0]), events[1..]);
    }
  }

  lemma {:induction false} DistrustedBitten(law: Law, h: string, s: Ledger, events: seq<Event>)
    requires PinnedAs(At(s, h), Distrusted) && NeverPins(h, events)
    ensures Bitten(law, h, s, events) == Lookups(h, events) && Bites(Run(law, s, events).byHost, h)
    decreases |events|
  {
    if events != [] {
      StepAt(law, s, events[0], h);
      assert !PinsHost(h, events[0]);
      PinStays(law, h, At(s, h), events[0], SettlesAt(s, events[0]), Distrusted);
      DistrustedBitten(law, h, Step(law, s, events[0]), events[1..]);
    }
  }

  /** Whatever happened before and whatever follows short of another pin: once a host is vouched for (code
      1) none of its lookups is bitten or counted, and once it is condemned (code 2) every one is. */
  lemma PinDecides(law: Law, h: string, s: Ledger, now: nat, events: seq<Event>)
    requires h != "" && NeverPins(h, events)
    ensures var vouched := Step(law, s, PinHost(h, 1, now));
            Bitten(law, h, vouched, events) == 0 && !Bites(Run(law, vouched, events).byHost, h)
    ensures var condemned := Step(law, s, PinHost(h, 2, now));
            Bitten(law, h, condemned, events) == Lookups(h, events) && Bites(Run(law, condemned, events).byHost, h)
  {
    StepAt(law, s, PinHost(h, 1, now), h);
    StepAt(law, s, PinHost(h, 2, now), h);
    TrustedUnbitten(law, h, Step(law, s, PinHost(h, 1, now)), events);
    DistrustedBitten(law, h, Step(law, s, PinHost(h, 2, now)), events);
  }

  // ---- What accidents cost ----

  function Total(ws: seq<nat>): nat { if ws == [] then 0 else ws[0] + Total(ws[1..]) }

  /** Accidents of `h`, each in its own second after `t`, none witnessed by the offline mirror. */
  ghost predicate Accidents(h: string, t: int, events: seq<Event>)
    decreases |events|
  {
    events == [] ||
    (&& events[0].Row? && events[0].host == h && events[0].score.Some? && events[0].score.value.source != Centauri
     && events[0].now > t && Accidents(h, events[0].now, events[1..]))
  }

  ghost function Weights(events: seq<Event>): (ws: seq<nat>)
    ensures |ws| == |events|
  {
    if events == [] then []
    else [if events[0].Row? && events[0].score.Some? then events[0].score.value.weight else 0] + Weights(events[1..])
  }

  /** The host is not bitten before the last of the events. */
  ghost predicate Unbitten(law: Law, h: string, s: Ledger, events: seq<Event>)
    decreases |events|
  {
    events == [] || (!Bites(s.byHost, h) && Unbitten(law, h, Step(law, s, events[0]), events[1..]))
  }

  /** An unpinned, chargeable row, last heard at `t` or before; or none yet. */
  predicate OpenRow(row: Option<Entry>, t: int) {
    row.Some? ==> row.value.verdict == Neutral && row.value.source != Centauri && row.value.lastSeen <= t
  }

  /** The points an accident finds. */
  function Standing(law: Law, h: string, row: Option<Entry>): int {
    if row.Some? then row.value.points else law.start(h)
  }

  /** The points left after one accident: less its weight, or twice that at or under the floor. */
  function After(points: int, floor: int, weight: nat): int {
    Max(0, if points > floor then points - weight else points - 2 * weight)
  }

  lemma AccidentStep(law: Law, h: string, row: Option<Entry>, ev: Event, settles: bool, t: int)
    requires law.start(h) >= 1 && law.ttl > 0 && MaybeSound(law, h, row) && h != "" && OpenRow(row, t)
    requires (row.Some? ==> !row.value.sequestrated) && Accident(h, row, ev)
    requires ev.score.value.source != Centauri && ev.now > t
    ensures var next := HostStep(law, h, row, ev, settles);
            && next.Some? && OpenRow(next, ev.now)
            && next.value.points == After(Standing(law, h, row), law.probation(h), ev.score.value.weight)
  {}

  /** One accident costs its weight, or twice that at or under the probation floor; nothing goes below
      zero. */
  lemma OneAccident(law: Law, h: string, s: Ledger, t: int, ev: Event)
    requires law.Valid() && law.ttl > 0 && Sound(law, s) && h != "" && OpenRow(At(s, h), t) && !Bites(s.byHost, h)
    requires ev.Row? && ev.host == h && ev.score.Some? && ev.score.value.source != Centauri && ev.now > t
    ensures var next := At(Step(law, s, ev), h);
            && next.Some? && OpenRow(next, ev.now)
            && next.value.points == After(Standing(law, h, At(s, h)), law.probation(h), ev.score.value.weight)
  {
    StepAt(law, s, ev, h);
    assert MaybeSound(law, h, At(s, h));
    AccidentStep(law, h, At(s, h), ev, SettlesAt(s, ev), t);
  }

  lemma TotalSplit(ws: seq<nat>, k: nat)
    requires 0 < k <= |ws|
    ensures Total(ws[..k]) == ws[0] + Total(ws[1..][..k - 1]) && ws[k..] == ws[1..][k - 1..]
  {
    assert ws[..k][1..] == ws[1..][..k - 1];
  }

  /** On probation every accident costs double. */
  lemma {:induction false} Doubled(law: Law, h: string, s: Ledger, t: int, events: seq<Event>)
    requires law.Valid() && law.ttl > 0 && Sound(law, s) && h != "" && OpenRow(At(s, h), t) && Accidents(h, t, events)
    requires Unbitten(law, h, s, events) && Standing(law, h, At(s, h)) <= law.probation(h)
    ensures Standing(law, h, At(Run(law, s, events), h)) ==
            Max(0, Standing(law, h, At(s, h)) - 2 * Total(Weights(events)))
    decreases |events|
  {
    assert At(s, h).Some? ==> RowSound(law, h, At(s, h).value);
    if events != [] {
      OneAccident(law, h, s, t, events[0]);
      StepSound(law, s, events[0]);
      Doubled(law, h, Step(law, s, events[0]), events[0].now, events[1..]);
      assert Weights(events)[1..] == Weights(events[1..]);
    }
  }

  /** The first `k` accidents find more points than the floor; the next one does not. */
  ghost predicate FallsAfter(points: int, floor: int, ws: seq<nat>, k: nat) {
    && k <= |ws| && (k < |ws| ==> points - Total(ws[..k]) <= floor)
    && forall j: nat :: j < k ==> points - Total(ws[..j]) > floor
  }

  /** What is left of `points` when the first `k` accidents cost their weight and the others twice that. */
  function Worn(points: int, ws: seq<nat>, k: nat): int
    requires k <= |ws|
  {
    Max(0, points - Total(ws[..k]) - 2 * Total(ws[k..]))
  }

  lemma WornNone(points: int, ws: seq<nat>)
    ensures Worn(points, ws, 0) == Max(0, points - 2 * Total(ws))
  {
    assert ws[0..] == ws && ws[..0] == [];
  }

  lemma WornOne(points: int, ws: seq<nat>)
    requires |ws| == 1
    ensures Worn(points, ws, 1) == Max(0, points - ws[0])
  {
    assert ws[..1] == ws && ws[1..] == [] && ws[..1][1..] == [];
  }

  lemma WornMore(points: int, ws: seq<nat>, m: nat)
    requires ws != [] && m <= |ws| - 1
    ensures Worn(points, ws, m + 1) == Worn(points - ws[0], ws[1..], m)
  {
    TotalSplit(ws, m + 1);
  }

  lemma SoundStanding(law: Law, h: string, s: Ledger)
    requires Sound(law, s)
    ensures Standing(law, h, At(s, h)) >= 0
  {
    if h in s.byHost { assert RowSound(law, h, s.byHost[h]); }
  }

  /** What a series of accidents costs, up to and with the one that drains the licence: the weight of each
      that finds the licence above the probation floor, and twice the weight of every later one. (A
      quarantine of no length would be over in the pass that starts it.) */
  lemma {:induction false} WornDown(law: Law, h: string, s: Ledger, t: int, events: seq<Event>) returns (k: nat)
    requires law.Valid() && law.ttl > 0 && Sound(law, s) && h != "" && OpenRow(At(s, h), t) && Accidents(h, t, events)
    requires Unbitten(law, h, s, events)
    ensures FallsAfter(Standing(law, h, At(s, h)), law.probation(h), Weights(events), k)
    ensures Standing(law, h, At(Run(law, s, events), h)) == Worn(Standing(law, h, At(s, h)), Weights(events), k)
    decreases |events|
  {
    var p, ws := Standing(law, h, At(s, h)), Weights(events);
    SoundStanding(law, h, s);
    if events == [] || p <= law.probation(h) {
      k := 0;
      WornNone(p, ws);
      assert ws[..0] == [];
      if events != [] { Doubled(law, h, s, t, events); }
    } else {
      k := WornFurther(law, h, s, t, events);
    }
  }

  lemma {:induction false} WornFurther(law: Law, h: string, s: Ledger, t: int, events: seq<Event>) returns (k: nat)
    requires law.Valid() && law.ttl > 0 && Sound(law, s) && h != "" && OpenRow(At(s, h), t) && Accidents(h, t, events)
    requires Unbitten(law, h, s, events) && events != [] && Standing(law, h, At(s, h)) > law.probation(h)
    ensures FallsAfter(Standing(law, h, At(s, h)), law.probation(h), Weights(events), k)
    ensures Standing(law, h, At(Run(law, s, events), h)) == Worn(Standing(law, h, At(s, h)), Weights(events), k)
    decreases |events|, 0
  {
    var p, ws, w := Standing(law, h, At(s, h)), Weights(events), events[0].score.value.weight;
    var next, rest := Step(law, s, events[0]), events[1..];
    OneAccident(law, h, s, t, events[0]);
    StepSound(law, s, events[0]);
    assert ws[1..] == Weights(rest) && ws[0] == w;
    if p - w <= 0 {
      DrainedIsBitten(law, h, next);
      assert rest == [];
      k := 1;
      WornOne(p, ws);
      assert ws[..0] == [];
    } else {
      var m := WornDown(law, h, next, events[0].now, rest);
      k := m + 1;
      WornMore(p, ws, m);
      FallsLater(p, law.probation(h), ws, m);
    }
  }

  lemma DrainedIsBitten(law: Law, h: string, s: Ledger)
    requires Sound(law, s) && h in s.byHost && s.byHost[h].points == 0 && s.byHost[h].verdict == Neutral
    ensures Bites(s.byHost, h)
  {
    assert RowSound(law, h, s.byHost[h]);
  }

  lemma FallsLater(points: int, floor: int, ws: seq<nat>, m: nat)
    requires ws != [] && points > floor && FallsAfter(points - ws[0], floor, ws[1..], m)
    ensures FallsAfter(points, floor, ws, m + 1)
  {
    TotalSplit(ws, m + 1);
    forall j: nat | j < m + 1 ensures points - Total(ws[..j]) > floor {
      if j == 0 {
        assert ws[..0] == [];
      } else {
        TotalSplit(ws, j);
        assert points - ws[0] - Total(ws[1..][..j - 1]) > floor;
      }
    }
  }

  // ---- How points come back ----

  /** A settle pass gives an unsequestrated row one point back exactly when it is short of its licence, not
      of an active-destroy lane, and neither an accident nor a heal fell in the last 30 seconds; else it
      gives nothing. */
  lemma HealedExactly(law: Law, h: string, s: Ledger, now: nat)
    requires Sound(law, s) && At(s, h).Some? && !At(s, h).value.sequestrated
    ensures var e, next := At(s, h).value, At(Step(law, s, SettlePass(now)), h);
            && next.Some?
            && next.value.points == e.points +
               (if e.points < law.start(h) && !ActiveDestroy(e.risk) && now >= e.lastSeen + 30 && now >= e.lastHeal + 30
                then 1 else 0)
  {
    StepAt(law, s, SettlePass(now), h);
    assert RowSound(law, h, s.byHost[h]);
  }

  /** The times at which a settle pass in the run gives `h` a point back. */
  ghost function HealTimes(law: Law, h: string, s: Ledger, events: seq<Event>): seq<nat>
    decreases |events|
  {
    if events == [] then []
    else
      var touched, next := Touched(law, h, At(s, h), events[0]), At(Step(law, s, events[0]), h);
      (if touched.Some? && next.Some? && !touched.value.sequestrated && next.value.points > touched.value.points
       then [events[0].now] else []) + HealTimes(law, h, Step(law, s, events[0]), events[1..])
  }

  ghost predicate Spaced(times: seq<nat>, gap: nat) {
    forall i, j :: 0 <= i < j < |times| ==> times[i] + gap <= times[j]
  }

  ghost predicate NoneBefore(times: seq<nat>, t: int) { forall i :: 0 <= i < |times| ==> times[i] >= t }

  /** One step: it heals only 30 seconds after the last heal, and then marks the time. */
  lemma HealStep(law: Law, h: string, row: Option<Entry>, ev: Event, settles: bool)
    requires row.Some? && !PinsHost(h, ev) && row.value.lastHeal <= ev.now
    ensures var touched, next := Touched(law, h, row, ev), HostStep(law, h, row, ev, settles);
            && touched.Some? && next.Some? && row.value.lastHeal <= next.value.lastHeal <= ev.now
            && (!touched.value.sequestrated && next.value.points > touched.value.points ==>
                  ev.now >= row.value.lastHeal + 30 && next.value.lastHeal == ev.now)
  {}

  lemma HealFirst(law: Law, h: string, ev: Event, settles: bool)
    requires Touched(law, h, None, ev).Some? && !PinsHost(h, ev)
    ensures var touched, next := Touched(law, h, None, ev).value, HostStep(law, h, None, ev, settles);
            next.Some? && next.value.lastHeal <= ev.now && (touched.sequestrated || next.value.points <= touched.points)
  {}

  lemma {:induction false} HealsAfter(law: Law, h: string, s: Ledger, t: nat, events: seq<Event>)
    requires Clocked(t, events) && NeverPins(h, events) && (At(s, h).Some? ==> At(s, h).value.lastHeal <= t)
    ensures Spaced(HealTimes(law, h, s, events), 30)
    ensures At(s, h).Some? ==> NoneBefore(HealTimes(law, h, s, events), At(s, h).value.lastHeal + 30)
    decreases |events|
  {
    if events != [] {
      var ev, row := events[0], At(s, h);
      StepAt(law, s, ev, h);
      assert !PinsHost(h, ev);
      if row.Some? {
        HealStep(law, h, row, ev, SettlesAt(s, ev));
      } else if Touched(law, h, row, ev).Some? {
        HealFirst(law, h, ev, SettlesAt(s, ev));
      }
      HealsAfter(law, h, Step(law, s, ev), ev.now, events[1..]);
    }
  }

  /** However often settle passes run, a host gets a point back at most every 30 seconds. */
  lemma HealsSpaced(law: Law, h: string, events: seq<Event>)
    requires Clocked(0, events) && NeverPins(h, events)
    ensures Spaced(HealTimes(law, h, EMPTY, events), 30)
  {
    HealsAfter(law, h, EMPTY, 0, events);
  }

  /** Settle passes, each 30 seconds or more after the last and after `t`. */
  ghost predicate IdlePasses(t: nat, events: seq<Event>)
    decreases |events|
  {
    events == [] || (events[0].SettlePass? && events[0].now >= t + 30 && IdlePasses(events[0].now, events[1..]))
  }

  /** An idle host gets one point back per pass, up to its full licence. */
  lemma {:induction false} IdleRecovers(law: Law, h: string, s: Ledger, t: nat, events: seq<Event>)
    requires law.Valid() && Sound(law, s) && At(s, h).Some? && !At(s, h).value.sequestrated
    requires !ActiveDestroy(At(s, h).value.risk) && At(s, h).value.lastSeen <= t && At(s, h).value.lastHeal <= t
    requires IdlePasses(t, events)
    ensures var after := At(Run(law, s, events), h);
            after.Some? && after.value.points ==
              if At(s, h).value.points + |events| <= law.start(h) then At(s, h).value.points + |events| else law.start(h)
    decreases |events|
  {
    assert RowSound(law, h, s.byHost[h]);
    if events != [] {
      StepAt(law, s, events[0], h);
      StepSound(law, s, events[0]);
      IdleRecovers(law, h, Step(law, s, events[0]), events[0].now, events[1..]);
    }
  }

  /** The lanes that can be forgiven; malware, spoofing, interception and detector-made lanes cannot. */
  predicate Forgivable(r: Risk) {
    match r
    case Analytics => true
    case Ads => true
    case Tracker => true
    case DnsLeak => true
    case IpLeak => true
    case Sonar => true
    case Cdn => true
    case Malware => false
    case Spoof => false
    case Mitm => false
    case Custom(_) => false
  }

  /** Exactly the forgivable lanes heal when idle and are let go when their quarantine has run out. */
  lemma LanesExactly(law: Law, h: string, s: Ledger, now: nat)
    requires law.Valid() && Sound(law, s) && At(s, h).Some? && At(s, h).value.verdict == Neutral
    ensures var e, next := At(s, h).value, At(Step(law, s, SettlePass(now)), h);
            && next.Some?
            && (0 < e.points < law.start(h) && now >= e.lastSeen + 30 && now >= e.lastHeal + 30 ==>
                  (next.value.points == e.points + 1 <==> Forgivable(e.risk)))
            && (e.points == 0 && e.seqAt > 0 && now >= e.seqAt + law.ttl && now >= e.lastSeen + law.ttl / 4 ==>
                  (next.value.points == law.start(h) <==> Forgivable(e.risk)))
  {
    StepAt(law, s, SettlePass(now), h);
    assert RowSound(law, h, s.byHost[h]);
  }

  /** The penalty itself, on any row: a vouched row is restored, a condemned one drained, and one the
      offline mirror owns is never sequestrated. */
  lemma PenaltyKeepsPins(law: Law, h: string, e: Entry, weight: nat, now: nat)
    ensures var after := Deduct(law, h, e, weight, now);
            && (e.verdict == Trusted ==> after.points == law.start(h) && !after.sequestrated)
            && (e.verdict == Distrusted ==> after.points == 0 && after.sequestrated)
            && (e.verdict == Neutral && e.source == Centauri ==> after.sequestrated == e.sequestrated)
  {}

  // ---- What the ledger listens to ----

  /** A row triggers a settle pass exactly when it is not the engine's own denial and the last such pass was
      five seconds ago or more. */
  lemma TickExactly(law: Law, s: Ledger, ev: Event)
    requires ev.Row?
    ensures SettlesAt(s, ev) <==> !Echo(s, ev.host, ev.blocked) && ev.now >= s.lastTick + 5
    ensures Step(law, s, ev).lastTick == if SettlesAt(s, ev) then ev.now else s.lastTick
  {}

  /** The row is still the one its first witness opened. */
  predicate SameOwner(before: Entry, after: Entry) {
    after.risk == before.risk && after.source == before.source && after.firstSeen == before.firstSeen
  }

  lemma OwnerStep(law: Law, h: string, row: Option<Entry>, ev: Event, settles: bool)
    requires row.Some?
    ensures var next := HostStep(law, h, row, ev, settles); next.Some? && SameOwner(row.value, next.value)
  {}

  lemma OwnerFirst(law: Law, h: string, ev: Event, settles: bool)
    requires ev.Row? && HostStep(law, h, None, ev, settles).Some?
    ensures var e := HostStep(law, h, None, ev, settles).value;
            ev.score.Some? && e.risk == ev.score.value.risk && e.source == ev.score.value.source &&
            e.firstSeen == ev.now && e.hits == 1
  {}

  /** Who first witnessed a host, in which lane and when, never changes; a row opened by an accident takes
      them from it. */
  lemma FirstWitnessOwns(law: Law, h: string, s: Ledger, ev: Event)
    ensures h in s.byHost ==> h in Step(law, s, ev).byHost && SameOwner(s.byHost[h], Step(law, s, ev).byHost[h])
    ensures h !in s.byHost && h in Step(law, s, ev).byHost && ev.Row? ==>
              var e := Step(law, s, ev).byHost[h];
              ev.score.Some? && e.risk == ev.score.value.risk && e.source == ev.score.value.source &&
              e.firstSeen == ev.now && e.hits == 1
  {
    StepAt(law, s, ev, h);
    if h in s.byHost {
      OwnerStep(law, h, At(s, h), ev, SettlesAt(s, ev));
    } else if ev.Row? && h in Step(law, s, ev).byHost {
      OwnerFirst(law, h, ev, SettlesAt(s, ev));
    }
  }

  /** Accidents of `h` that were not denied keep arriving: none of the events comes a quarter of the
      quarantine after the last of them. */
  ghost predicate Hammered(law: Law, h: string, t: nat, events: seq<Event>)
    decreases |events|
  {
    events == [] ||
    (&& t <= events[0].now < t + law.ttl / 4
     && Hammered(law, h, if events[0].Row? && events[0].host == h && events[0].score.Some? && !events[0].blocked
                         then events[0].now else t, events[1..]))
  }

  lemma HammeredStep(law: Law, h: string, row: Option<Entry>, ev: Event, settles: bool, t: nat)
    requires InQuarantine(row) && RowSound(law, h, row.value) && !PinsHost(h, ev) && row.value.lastSeen >= t
    requires t <= ev.now < t + law.ttl / 4
    ensures var next := HostStep(law, h, row, ev, settles);
            && InQuarantine(next)
            && next.value.lastSeen >= (if ev.Row? && ev.host == h && ev.score.Some? && !ev.blocked then ev.now else t)
  {}

  /** A host that keeps causing fresh accidents never walks, however long its quarantine has run. */
  lemma {:induction false} HammeringNeverWalks(law: Law, h: string, s: Ledger, t: nat, events: seq<Event>)
    requires law.Valid() && Sound(law, s) && InQuarantine(At(s, h)) && At(s, h).value.lastSeen >= t
    requires NeverPins(h, events) && Hammered(law, h, t, events)
    ensures Bites(Run(law, s, events).byHost, h)
    decreases |events|
  {
    if events != [] {
      var ev := events[0];
      assert !PinsHost(h, ev) && RowSound(law, h, s.byHost[h]);
      StepAt(law, s, ev, h);
      StepSound(law, s, ev);
      HammeredStep(law, h, At(s, h), ev, SettlesAt(s, ev), t);
      HammeringNeverWalks(law, h, Step(law, s, ev),
                          if ev.Row? && ev.host == h && ev.score.Some? && !ev.blocked then ev.now else t, events[1..]);
    }
  }
}
