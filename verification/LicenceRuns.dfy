/** Whole runs of the licence ledger: conservation of points, one charge per second, and what a
    quarantine can and cannot do. */
module LicenceRuns {
  import opened Sequences
  import opened Totals
  import opened Licence

  datatype Event =
    | Row(host: string, blocked: bool, score: Option<Score>, now: nat)
    | PinHost(host: string, code: nat, now: nat)
    | Lookup(host: string, now: nat)
    | SettlePass(now: nat)

  const EMPTY: Ledger := Ledger(map[], 0, 0, 0, 0)

  ghost function Step(law: Law, s: Ledger, ev: Event): Ledger {
    match ev
    case Row(host, blocked, score, now) => Feed(law, s, host, blocked, score, now)
    case PinHost(host, code, now) => Pin(law, s, host, code, now)
    case Lookup(host, now) => Gate(s, host)
    case SettlePass(now) => Settle(law, s, now)
  }

  ghost function Run(law: Law, s: Ledger, events: seq<Event>): Ledger
    decreases |events|
  {
    if events == [] then s else Run(law, Step(law, s, events[0]), events[1..])
  }

  /** The clock never runs back. */
  ghost predicate Clocked(t: nat, events: seq<Event>)
    decreases |events|
  {
    events == [] || (t <= events[0].now && Clocked(events[0].now, events[1..]))
  }

  // ---- One host at a time ----

  function At(s: Ledger, h: string): Option<Entry> {
    if h in s.byHost then Some(s.byHost[h]) else None
  }

  /** The event runs a settle pass. */
  predicate SettlesAt(s: Ledger, ev: Event) {
    ev.SettlePass? || (ev.Row? && !Echo(s, ev.host, ev.blocked) && TickDue(s, ev.now))
  }

  predicate EchoOf(row: Option<Entry>, blocked: bool) {
    blocked && row.Some? && row.value.sequestrated && row.value.verdict == Neutral
  }

  /** The event records an accident of `h`. */
  predicate Accident(h: string, row: Option<Entry>, ev: Event) {
    ev.Row? && ev.host == h && h != "" && ev.score.Some? && !EchoOf(row, ev.blocked)
  }

  predicate PinsHost(h: string, ev: Event) { ev.PinHost? && ev.host == h && h != "" }

  /** The row an accident finds or makes. */
  function Before(law: Law, h: string, row: Option<Entry>, ev: Event): Entry
    requires Accident(h, row, ev)
  {
    if row.Some? then row.value else FreshEntry(law, h, ev.score.value.risk, ev.score.value.source, ev.now)
  }

  /** The row of `h` after the event, before any settling. */
  function Touched(law: Law, h: string, row: Option<Entry>, ev: Event): Option<Entry> {
    if Accident(h, row, ev) then Some(Witness(law, h, Before(law, h, row, ev), ev.score.value.weight, ev.now))
    else if PinsHost(h, ev) then
      Some(Pinned(law, h, if row.Some? then row.value else FreshEntry(law, h, Tracker, Suffix, ev.now),
                  FromCode(ev.code), ev.now))
    else row
  }

  function HostStep(law: Law, h: string, row: Option<Entry>, ev: Event, settles: bool): Option<Entry> {
    var touched := Touched(law, h, row, ev);
    if settles && touched.Some? then Some(Settled(law, h, touched.value, ev.now)) else touched
  }

  lemma SettleAt(law: Law, s: Ledger, now: nat, h: string)
    ensures At(Settle(law, s, now), h) ==
            if At(s, h).None? then None else Some(Settled(law, h, s.byHost[h], now))
  {}

  /** Hosts do not interfere: each row moves by the events that name it and by the settle passes. */
  lemma StepAt(law: Law, s: Ledger, ev: Event, h: string)
    ensures At(Step(law, s, ev), h) == HostStep(law, h, At(s, h), ev, SettlesAt(s, ev))
  {
    if ev.Row? && !Echo(s, ev.host, ev.blocked) {
      var heard := Heard(law, s, ev.host, ev.score, ev.now);
      assert At(heard, h) == Touched(law, h, At(s, h), ev);
      SettleAt(law, heard.(lastTick := ev.now), ev.now, h);
    }
  }

  // ---- What every row keeps ----

  /** Points within the licence; drained exactly when sequestrated; pins hold their end. */
  predicate RowSound(law: Law, h: string, e: Entry) {
    && h != "" && 0 <= e.points <= law.start(h)
    && (e.sequestrated <==> e.points == 0)
    && (e.verdict == Trusted ==> e.points == law.start(h))
    && (e.verdict == Distrusted ==> e.points == 0)
  }

  predicate MaybeSound(law: Law, h: string, row: Option<Entry>) { row.None? || RowSound(law, h, row.value) }

  ghost predicate Sound(law: Law, s: Ledger) {
    forall h :: h in s.byHost ==> RowSound(law, h, s.byHost[h])
  }

  lemma HostStepSound(law: Law, h: string, row: Option<Entry>, ev: Event, settles: bool)
    requires law.start(h) >= 1 && MaybeSound(law, h, row)
    ensures MaybeSound(law, h, Touched(law, h, row, ev)) && MaybeSound(law, h, HostStep(law, h, row, ev, settles))
  {}

  lemma StepSound(law: Law, s: Ledger, ev: Event)
    requires law.Valid() && Sound(law, s)
    ensures Sound(law, Step(law, s, ev))
  {
    var next := Step(law, s, ev);
    forall h | h in next.byHost ensures RowSound(law, h, next.byHost[h]) {
      StepAt(law, s, ev, h);
      assert MaybeSound(law, h, At(s, h));
      HostStepSound(law, h, At(s, h), ev, SettlesAt(s, ev));
    }
  }

  /** In every run, pins and all, every licence stays within bounds and a host is sequestrated exactly
      when its licence is drained. */
  lemma {:induction false} RunSound(law: Law, s: Ledger, events: seq<Event>)
    requires law.Valid() && Sound(law, s)
    ensures Sound(law, Run(law, s, events))
    decreases |events|
  {
    if events != [] {
      StepSound(law, s, events[0]);
      RunSound(law, Step(law, s, events[0]), events[1..]);
    }
  }

  // ---- Conservation ----

  function Deficits(law: Law, rows: map<string, Entry>): map<string, int> {
    map h | h in rows :: law.start(h) - rows[h].points
  }

  function Hits(rows: map<string, Entry>): map<string, int> {
    map h | h in rows :: rows[h].hits
  }

  /** The points one accident takes from a row. */
  function Bleed(law: Law, h: string, e: Entry, weight: nat, now: nat): int {
    if Charges(e, now) && e.verdict == Neutral then
      var penalty := Penalty(law, h, e.points, weight);
      if penalty <= e.points then penalty else e.points
    else 0
  }

  /** The points the event bleeds, over all hosts. */
  function Bled(law: Law, s: Ledger, ev: Event): int {
    if ev.Row? && Accident(ev.host, At(s, ev.host), ev) then
      Bleed(law, ev.host, Before(law, ev.host, At(s, ev.host), ev), ev.score.value.weight, ev.now)
    else 0
  }

  /** The points a pin takes (or, when it vouches, gives back). */
  function Taken(law: Law, s: Ledger, ev: Event): int {
    if ev.PinHost? && PinsHost(ev.host, ev) then
      (if ev.host in s.byHost then s.byHost[ev.host].points else law.start(ev.host)) -
      Touched(law, ev.host, At(s, ev.host), ev).value.points
    else 0
  }

  ghost function RunBled(law: Law, s: Ledger, events: seq<Event>): int
    decreases |events|
  {
    if events == [] then 0 else Bled(law, s, events[0]) + RunBled(law, Step(law, s, events[0]), events[1..])
  }

  ghost function RunTaken(law: Law, s: Ledger, events: seq<Event>): int
    decreases |events|
  {
    if events == [] then 0 else Taken(law, s, events[0]) + RunTaken(law, Step(law, s, events[0]), events[1..])
  }

  ghost function Deficit(law: Law, s: Ledger): int { Total(Deficits(law, s.byHost)) }

  lemma DeficitChange(law: Law, rows: map<string, Entry>, h: string, e: Entry)
    ensures Total(Deficits(law, rows[h := e])) == Total(Deficits(law, rows)) +
            (if h in rows then rows[h].points else law.start(h)) - e.points
  {
    TotalUpdate(Deficits(law, rows), h, law.start(h) - e.points);
    assert Deficits(law, rows[h := e]) == Deficits(law, rows)[h := law.start(h) - e.points];
  }

  lemma HitsChange(rows: map<string, Entry>, h: string, e: Entry)
    ensures Total(Hits(rows[h := e])) == Total(Hits(rows)) + e.hits - (if h in rows then rows[h].hits else 0)
  {
    TotalUpdate(Hits(rows), h, e.hits);
    assert Hits(rows[h := e]) == Hits(rows)[h := e.hits];
  }

  /** The points counted as healed are those the row gained, whatever state it was in. */
  lemma SettledPoints(law: Law, h: string, e: Entry, now: nat)
    requires e.points <= law.start(h)
    ensures Settled(law, h, e, now).points == e.points + Restored(law, h, e, now)
    ensures Settled(law, h, e, now).hits == e.hits
  {}

  lemma SettleConserves(law: Law, s: Ledger, now: nat)
    requires Sound(law, s)
    ensures Deficit(law, Settle(law, s, now)) == Deficit(law, s) - (Settle(law, s, now).recovered - s.recovered)
    ensures Total(Hits(Settle(law, s, now).byHost)) == Total(Hits(s.byHost))
  {
    var next := Settle(law, s, now).byHost;
    forall h | h in s.byHost
      ensures next[h].points == s.byHost[h].points + Restored(law, h, s.byHost[h], now)
      ensures next[h].hits == s.byHost[h].hits
    {
      SettledPoints(law, h, s.byHost[h], now);
    }
    TotalAdd(Deficits(law, s.byHost), Deficits(law, next), RestoredRows(law, s.byHost, now));
    assert Hits(next) == Hits(s.byHost);
  }

  lemma WitnessPoints(law: Law, h: string, e: Entry, weight: nat, now: nat)
    requires RowSound(law, h, e)
    ensures Witness(law, h, e, weight, now).points == e.points - Bleed(law, h, e, weight, now)
    ensures Witness(law, h, e, weight, now).hits == e.hits + 1
  {}

  lemma FreshIsSound(law: Law, h: string, risk: Risk, source: Source, now: nat)
    requires law.Valid() && h != ""
    ensures RowSound(law, h, FreshEntry(law, h, risk, source, now))
  {}

  lemma HeardConserves(law: Law, s: Ledger, ev: Event)
    requires law.Valid() && Sound(law, s) && ev.Row? && !Echo(s, ev.host, ev.blocked)
    ensures var heard := Heard(law, s, ev.host, ev.score, ev.now);
            && Deficit(law, heard) == Deficit(law, s) + Bled(law, s, ev)
            && Total(Hits(heard.byHost)) - heard.recorded == Total(Hits(s.byHost)) - s.recorded
            && heard.recovered == s.recovered
  {
    var h := ev.host;
    if Accident(h, At(s, h), ev) {
      var e := Before(law, h, At(s, h), ev);
      FreshIsSound(law, h, ev.score.value.risk, ev.score.value.source, ev.now);
      WitnessPoints(law, h, e, ev.score.value.weight, ev.now);
      DeficitChange(law, s.byHost, h, Witness(law, h, e, ev.score.value.weight, ev.now));
      HitsChange(s.byHost, h, Witness(law, h, e, ev.score.value.weight, ev.now));
    }
  }

  lemma HeardSound(law: Law, s: Ledger, ev: Event)
    requires law.Valid() && Sound(law, s) && ev.Row? && !Echo(s, ev.host, ev.blocked)
    ensures Sound(law, Heard(law, s, ev.host, ev.score, ev.now))
  {
    var heard := Heard(law, s, ev.host, ev.score, ev.now);
    forall h | h in heard.byHost ensures RowSound(law, h, heard.byHost[h]) {
      assert At(heard, h) == Touched(law, h, At(s, h), ev);
      HostStepSound(law, h, At(s, h), ev, false);
    }
  }

  lemma PinConserves(law: Law, s: Ledger, ev: Event)
    requires ev.PinHost?
    ensures var next := Pin(law, s, ev.host, ev.code, ev.now);
            && Deficit(law, next) == Deficit(law, s) + Taken(law, s, ev)
            && Total(Hits(next.byHost)) == Total(Hits(s.byHost))
  {
    var h := ev.host;
    if h != "" {
      DeficitChange(law, s.byHost, h, Touched(law, h, At(s, h), ev).value);
      HitsChange(s.byHost, h, Touched(law, h, At(s, h), ev).value);
    }
  }

  /** The points missing and those recovered moved by `moved` in all, and every accident is a hit. */
  ghost predicate Balanced(law: Law, s: Ledger, next: Ledger, moved: int) {
    && Deficit(law, next) + next.recovered == Deficit(law, s) + s.recovered + moved
    && Total(Hits(next.byHost)) - next.recorded == Total(Hits(s.byHost)) - s.recorded
  }

  lemma RowConserves(law: Law, s: Ledger, ev: Event)
    requires law.Valid() && Sound(law, s) && ev.Row?
    ensures Balanced(law, s, Step(law, s, ev), Bled(law, s, ev))
  {
    if !Echo(s, ev.host, ev.blocked) {
      HeardConserves(law, s, ev);
      HeardSound(law, s, ev);
      var heard := Heard(law, s, ev.host, ev.score, ev.now);
      SettleConserves(law, heard.(lastTick := ev.now), ev.now);
    }
  }

  lemma StepConserves(law: Law, s: Ledger, ev: Event)
    requires law.Valid() && Sound(law, s)
    ensures Balanced(law, s, Step(law, s, ev), Bled(law, s, ev) + Taken(law, s, ev))
  {
    match ev {
      case Row(host, blocked, score, now) => { RowConserves(law, s, ev); }
      case PinHost(host, code, now) => { PinConserves(law, s, ev); }
      case Lookup(host, now) => {}
      case SettlePass(now) => { SettleConserves(law, s, now); }
    }
  }

  lemma {:induction false} RunConserves(law: Law, s: Ledger, events: seq<Event>)
    requires law.Valid() && Sound(law, s)
    ensures var end := Run(law, s, events);
            && Deficit(law, end) + end.recovered ==
               Deficit(law, s) + s.recovered + RunBled(law, s, events) + RunTaken(law, s, events)
            && Total(Hits(end.byHost)) - end.recorded == Total(Hits(s.byHost)) - s.recorded
    decreases |events|
  {
    if events != [] {
      StepConserves(law, s, events[0]);
      StepSound(law, s, events[0]);
      RunConserves(law, Step(law, s, events[0]), events[1..]);
    }
  }

  ghost predicate NoPins(events: seq<Event>) { forall i :: 0 <= i < |events| ==> !events[i].PinHost? }

  lemma {:induction false} NoPinsTakeNothing(law: Law, s: Ledger, events: seq<Event>)
    requires NoPins(events)
    ensures RunTaken(law, s, events) == 0
    decreases |events|
  {
    if events != [] { NoPinsTakeNothing(law, Step(law, s, events[0]), events[1..]); }
  }

  /** Licence conservation over every run from an empty store: the points missing are exactly those
      bled, plus those pins took, less those recovered; without pins, bled less recovered. Every
      accident recorded is a hit on some row. */
  lemma Conservation(law: Law, events: seq<Event>)
    requires law.Valid()
    ensures var end := Run(law, EMPTY, events);
            && Deficit(law, end) == RunBled(law, EMPTY, events) + RunTaken(law, EMPTY, events) - end.recovered
            && (NoPins(events) ==> Deficit(law, end) == RunBled(law, EMPTY, events) - end.recovered)
            && end.recorded == Total(Hits(end.byHost))
  {
    RunConserves(law, EMPTY, events);
    assert Deficits(law, map[]) == map[] && Hits(map[]) == map[];
    if NoPins(events) { NoPinsTakeNothing(law, EMPTY, events); }
  }

  // ---- One charge per second ----

  /** A charge the event makes to `h`: when, and how many points. */
  function ChargeOf(law: Law, h: string, row: Option<Entry>, ev: Event): Option<(nat, int)> {
    if Accident(h, row, ev) && Charges(Before(law, h, row, ev), ev.now) then
      Some((ev.now, Bleed(law, h, Before(law, h, row, ev), ev.score.value.weight, ev.now)))
    else None
  }

  /** The charges made to `h`, in order. */
  ghost function Charged(law: Law, h: string, s: Ledger, events: seq<Event>): seq<(nat, int)>
    decreases |events|
  {
    if events == [] then []
    else
      var charge := ChargeOf(law, h, At(s, h), events[0]);
      (if charge.Some? then [charge.value] else []) + Charged(law, h, Step(law, s, events[0]), events[1..])
  }

  /** The last accident of a witnessed row is not in the future. */
  predicate RowTimed(row: Option<Entry>, t: nat) { row.None? || row.value.lastSeen <= t }

  lemma HostStepTimed(law: Law, h: string, row: Option<Entry>, ev: Event, settles: bool)
    requires RowTimed(row, ev.now)
    ensures RowTimed(HostStep(law, h, row, ev, settles), ev.now)
    ensures ChargeOf(law, h, row, ev).Some? ==>
              var e := HostStep(law, h, row, ev, settles).value; e.hits > 0 && e.lastSeen == ev.now
    ensures row.Some? && row.value.hits > 0 ==>
              var next := HostStep(law, h, row, ev, settles);
              next.Some? && next.value.hits > 0 && row.value.lastSeen <= next.value.lastSeen
    ensures ChargeOf(law, h, row, ev).Some? && row.Some? && row.value.hits > 0 ==> row.value.lastSeen < ev.now
  {}

  /** Each charge is at a later second than the one before. */
  ghost predicate Increasing(charges: seq<(nat, int)>) {
    forall i, j :: 0 <= i < j < |charges| ==> charges[i].0 < charges[j].0
  }

  ghost predicate AllAfter(charges: seq<(nat, int)>, t: int) {
    forall i :: 0 <= i < |charges| ==> charges[i].0 > t
  }

  lemma {:induction false} ChargesAfter(law: Law, h: string, s: Ledger, t: nat, events: seq<Event>)
    requires Clocked(t, events) && RowTimed(At(s, h), t)
    ensures Increasing(Charged(law, h, s, events))
    ensures At(s, h).Some? && At(s, h).value.hits > 0 ==>
              AllAfter(Charged(law, h, s, events), At(s, h).value.lastSeen)
    decreases |events|
  {
    if events != [] {
      var ev, row := events[0], At(s, h);
      StepAt(law, s, ev, h);
      HostStepTimed(law, h, row, ev, SettlesAt(s, ev));
      ChargesAfter(law, h, Step(law, s, ev), ev.now, events[1..]);
    }
  }

  /** However many accidents of a host arrive, it is charged at most once per second. */
  lemma ChargedOncePerSecond(law: Law, h: string, events: seq<Event>)
    requires Clocked(0, events)
    ensures Increasing(Charged(law, h, EMPTY, events))
  {
    ChargesAfter(law, h, EMPTY, 0, events);
  }

  ghost function Sum(charges: seq<(nat, int)>): int {
    if charges == [] then 0 else charges[0].1 + Sum(charges[1..])
  }

  /** The points settle passes give back to `h`. */
  ghost function Healed(law: Law, h: string, s: Ledger, events: seq<Event>): int
    decreases |events|
  {
    if events == [] then 0
    else
      var touched := Touched(law, h, At(s, h), events[0]);
      (if SettlesAt(s, events[0]) && touched.Some? then Restored(law, h, touched.value, events[0].now) else 0) +
      Healed(law, h, Step(law, s, events[0]), events[1..])
  }

  function Missing(law: Law, h: string, row: Option<Entry>): int {
    if row.None? then 0 else law.start(h) - row.value.points
  }

  ghost predicate NeverPins(h: string, events: seq<Event>) {
    forall i :: 0 <= i < |events| ==> !PinsHost(h, events[i])
  }

  lemma TouchedBalance(law: Law, h: string, row: Option<Entry>, ev: Event)
    requires law.Valid() && MaybeSound(law, h, row) && !PinsHost(h, ev)
    ensures Missing(law, h, Touched(law, h, row, ev)) == Missing(law, h, row) +
            (if ChargeOf(law, h, row, ev).Some? then ChargeOf(law, h, row, ev).value.1 else 0)
  {
    if Accident(h, row, ev) {
      FreshIsSound(law, h, ev.score.value.risk, ev.score.value.source, ev.now);
      WitnessPoints(law, h, Before(law, h, row, ev), ev.score.value.weight, ev.now);
    }
  }

  /** Over any stretch without a pin of `h`, its missing points move by its charges less its heals. */
  lemma {:induction false} HostBalance(law: Law, h: string, s: Ledger, events: seq<Event>)
    requires law.Valid() && Sound(law, s) && NeverPins(h, events)
    ensures Missing(law, h, At(Run(law, s, events), h)) ==
            Missing(law, h, At(s, h)) + Sum(Charged(law, h, s, events)) - Healed(law, h, s, events)
    decreases |events|
  {
    if events != [] {
      var ev, row := events[0], At(s, h);
      var touched := Touched(law, h, row, ev);
      StepAt(law, s, ev, h);
      assert MaybeSound(law, h, row) && !PinsHost(h, ev);
      TouchedBalance(law, h, row, ev);
      HostStepSound(law, h, row, ev, false);
      if touched.Some? { SettledPoints(law, h, touched.value, ev.now); }
      StepSound(law, s, ev);
      HostBalance(law, h, Step(law, s, ev), events[1..]);
      SumCons(ChargeOf(law, h, row, ev), Charged(law, h, Step(law, s, ev), events[1..]));
    }
  }

  lemma SumCons(charge: Option<(nat, int)>, rest: seq<(nat, int)>)
    ensures Sum((if charge.Some? then [charge.value] else []) + rest) ==
            (if charge.Some? then charge.value.1 else 0) + Sum(rest)
  {
    if charge.Some? { assert ([charge.value] + rest)[1..] == rest; } else { assert [] + rest == rest; }
  }

  /** The teeth bite a never-pinned host exactly when it has a row whose charges, all at different
      seconds, have consumed its whole licence net of heals. */
  lemma BiteMeansDrained(law: Law, h: string, events: seq<Event>)
    requires law.Valid() && Clocked(0, events) && NeverPins(h, events)
    ensures var charges := Charged(law, h, EMPTY, events);
            && Increasing(charges)
            && (Bites(Run(law, EMPTY, events).byHost, h) <==>
                Sum(charges) - Healed(law, h, EMPTY, events) == law.start(h))
  {
    ChargedOncePerSecond(law, h, events);
    HostBalance(law, h, EMPTY, events);
    RunSound(law, EMPTY, events);
    UnpinnedStaysNeutral(law, h, EMPTY, events);
  }

  predicate MaybeNeutral(row: Option<Entry>) { row.Some? ==> row.value.verdict == Neutral }

  lemma NeutralStep(law: Law, h: string, row: Option<Entry>, ev: Event, settles: bool)
    requires MaybeNeutral(row) && !PinsHost(h, ev)
    ensures MaybeNeutral(HostStep(law, h, row, ev, settles))
  {}

  lemma {:induction false} UnpinnedStaysNeutral(law: Law, h: string, s: Ledger, events: seq<Event>)
    requires NeverPins(h, events) && MaybeNeutral(At(s, h))
    ensures MaybeNeutral(At(Run(law, s, events), h))
    decreases |events|
  {
    if events != [] {
      StepAt(law, s, events[0], h);
      assert !PinsHost(h, events[0]);
      NeutralStep(law, h, At(s, h), events[0], SettlesAt(s, events[0]));
      UnpinnedStaysNeutral(law, h, Step(law, s, events[0]), events[1..]);
    }
  }

  /** A row the offline mirror serves is never charged; a vouched row never bleeds. */
  lemma {:induction false} ImmuneNeverBleeds(law: Law, h: string, s: Ledger, events: seq<Event>)
    requires law.Valid() && Sound(law, s) && NeverPins(h, events)
    requires At(s, h).Some? && (At(s, h).value.source == Centauri || At(s, h).value.verdict == Trusted)
    ensures Sum(Charged(law, h, s, events)) == 0
    ensures At(Run(law, s, events), h).Some? && At(Run(law, s, events), h).value.points >= At(s, h).value.points
    decreases |events|
  {
    if events != [] {
      var ev, row := events[0], At(s, h);
      StepAt(law, s, ev, h);
      StepSound(law, s, ev);
      assert !PinsHost(h, ev) && MaybeSound(law, h, row);
      ImmuneStep(law, h, row, ev, SettlesAt(s, ev));
      ImmuneNeverBleeds(law, h, Step(law, s, ev), events[1..]);
      SumCons(ChargeOf(law, h, row, ev), Charged(law, h, Step(law, s, ev), events[1..]));
    }
  }

  lemma ImmuneStep(law: Law, h: string, row: Option<Entry>, ev: Event, settles: bool)
    requires row.Some? && RowSound(law, h, row.value) && law.start(h) >= 1 && !PinsHost(h, ev)
    requires row.value.source == Centauri || row.value.verdict == Trusted
    ensures var next := HostStep(law, h, row, ev, settles);
            && next.Some? && (next.value.source == Centauri || next.value.verdict == Trusted)
            && next.value.points >= row.value.points
    ensures ChargeOf(law, h, row, ev).Some? ==> ChargeOf(law, h, row, ev).value.1 == 0
  {}
}
