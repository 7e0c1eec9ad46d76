/** The licence and quarantine ledger: per-host points bleed with accidents, double on probation, heal
    when idle, drain into sequestration and are restored by a retest; a manual pin overrides all. */
module Licence {
  import opened Sequences
  import opened Totals

  const RECOVERY_IDLE_SECS: nat := 30
  const RECOVERY_STEP: nat := 1
  const PERSIST_MIN_GAP_SECS: nat := 5

  datatype Risk =
    | Analytics | Ads | Tracker | DnsLeak | IpLeak | Sonar | Mitm | Spoof | Malware | Cdn
    | Custom(lane: string)

  datatype Source = Blocklist | Guard | Rebind | Suffix | Centauri

  datatype Verdict = Neutral | Trusted | Distrusted

  /** The tier that never heals. */
  predicate ActiveDestroy(r: Risk) { r.Malware? || r.Spoof? || r.Mitm? || r.Custom? }

  datatype Entry = Entry(
    risk: Risk, source: Source, hits: nat, points: int,
    firstSeen: nat, lastSeen: nat, lastHeal: nat,
    sequestrated: bool, verdict: Verdict, seqAt: nat)

  /** The scoring law in force: each host's full licence and probation floor, and the quarantine time. */
  datatype Law = Law(start: string -> nat, probation: string -> nat, ttl: nat) {
    ghost predicate Valid() { forall h :: start(h) >= 1 }
  }

  /** A fused accident: the lane, who witnessed it, and its weight. */
  datatype Score = Score(risk: Risk, source: Source, weight: nat)

  /** What the store holds. */
  datatype Ledger = Ledger(byHost: map<string, Entry>, recorded: nat, recovered: nat, teeth: nat, lastTick: nat)

  function Max(a: int, b: int): int { if a >= b then a else b }

  /** Subtraction that stops at zero. */
  function Since(now: nat, then_: nat): nat { if now >= then_ then now - then_ else 0 }

  function FreshEntry(law: Law, host: string, risk: Risk, source: Source, now: nat): Entry {
    Entry(risk, source, 0, law.start(host), now, now, now, false, Neutral, 0)
  }

  function Penalty(law: Law, host: string, points: int, weight: nat): nat {
    if points <= law.probation(host) then 2 * weight else weight
  }

  /** One accident's penalty on a row. */
  function Deduct(law: Law, host: string, e: Entry, weight: nat, now: nat): Entry {
    match e.verdict
    case Trusted => e.(points := law.start(host), sequestrated := false)
    case Distrusted => e.(points := 0, sequestrated := true)
    case Neutral =>
      var left := Max(e.points - Penalty(law, host, e.points, weight), 0);
      if left == 0 && e.source != Centauri then
        e.(points := 0, sequestrated := true, seqAt := if e.sequestrated then e.seqAt else now)
      else
        e.(points := left)
  }

  /** A second probe of an accident already heard this second. */
  predicate DuplicateProbe(e: Entry, now: nat) { e.hits != 0 && e.lastSeen == now }

  /** The accident is charged, not just witnessed. */
  predicate Charges(e: Entry, now: nat) { !DuplicateProbe(e, now) && e.source != Centauri }

  /** The row after one more accident. */
  function Witness(law: Law, host: string, e: Entry, weight: nat, now: nat): Entry {
    var seen := e.(hits := e.hits + 1, lastSeen := now);
    if Charges(e, now) then Deduct(law, host, seen, weight, now) else seen
  }

  function Found(law: Law, s: Ledger, host: string, risk: Risk, source: Source, now: nat): Entry {
    if host in s.byHost then s.byHost[host] else FreshEntry(law, host, risk, source, now)
  }

  /** Record one accident; the first witness owns the row. */
  function Record(law: Law, s: Ledger, host: string, score: Score, now: nat): Ledger {
    if host == "" then s
    else
      var e := Found(law, s, host, score.risk, score.source, now);
      s.(byHost := s.byHost[host := Witness(law, host, e, score.weight, now)], recorded := s.recorded + 1)
  }

  function FromCode(code: nat): Verdict {
    if code == 1 then Trusted else if code == 2 then Distrusted else Neutral
  }

  /** The row under a new pin; clearing one leaves the licence where it stands. */
  function Pinned(law: Law, host: string, e: Entry, v: Verdict, now: nat): Entry {
    var p := e.(verdict := v, lastSeen := now);
    match v
    case Trusted => p.(sequestrated := false, points := law.start(host))
    case Distrusted => p.(sequestrated := true, points := 0)
    case Neutral => p
  }

  function Pin(law: Law, s: Ledger, host: string, code: nat, now: nat): Ledger {
    if host == "" then s
    else
      var e := Found(law, s, host, Tracker, Suffix, now);
      s.(byHost := s.byHost[host := Pinned(law, host, e, FromCode(code), now)])
  }

  /** The quarantine has run out and the recent window was quiet. */
  predicate Retests(law: Law, e: Entry, now: nat) {
    && e.sequestrated && !ActiveDestroy(e.risk) && e.verdict == Neutral && e.seqAt > 0
    && now >= e.seqAt + law.ttl && Since(now, e.lastSeen) >= law.ttl / 4
  }

  predicate Heals(law: Law, host: string, e: Entry, now: nat) {
    && !e.sequestrated && !ActiveDestroy(e.risk) && e.points < law.start(host)
    && Since(now, Max(e.lastSeen, e.lastHeal)) >= RECOVERY_IDLE_SECS
  }

  /** One row of a settle pass. */
  function Settled(law: Law, host: string, e: Entry, now: nat): Entry {
    if Retests(law, e, now) then e.(sequestrated := false, seqAt := 0, points := law.start(host), lastHeal := now)
    else if Heals(law, host, e, now) then
      e.(points := if e.points + RECOVERY_STEP <= law.start(host) then e.points + RECOVERY_STEP else law.start(host),
         lastHeal := now)
    else e
  }

  /** The points a settle pass counts as healed on one row. */
  function Restored(law: Law, host: string, e: Entry, now: nat): nat {
    if Retests(law, e, now) then Max(law.start(host) - e.points, 0)
    else if Heals(law, host, e, now) then RECOVERY_STEP
    else 0
  }

  function SettledRows(law: Law, rows: map<string, Entry>, now: nat): map<string, Entry> {
    map h | h in rows :: Settled(law, h, rows[h], now)
  }

  function RestoredRows(law: Law, rows: map<string, Entry>, now: nat): map<string, int> {
    map h | h in rows :: Restored(law, h, rows[h], now)
  }

  lemma {:induction false} RestoredIsNat(m: map<string, int>)
    requires forall h :: h in m ==> m[h] >= 0
    ensures Total(m) >= 0
    decreases |m|
  {
    if m != map[] {
      var k :| k in m;
      TotalRemove(m, k);
      RestoredIsNat(m - {k});
    }
  }

  ghost function Settle(law: Law, s: Ledger, now: nat): Ledger {
    RestoredIsNat(RestoredRows(law, s.byHost, now));
    s.(byHost := SettledRows(law, s.byHost, now),
       recovered := s.recovered + Total(RestoredRows(law, s.byHost, now)))
  }

  /** The teeth: whether a lookup of the host is answered as non-existent. */
  predicate Bites(rows: map<string, Entry>, host: string) {
    host in rows && match rows[host].verdict
                    case Trusted => false
                    case Distrusted => true
                    case Neutral => rows[host].sequestrated
  }

  function Gate(s: Ledger, host: string): Ledger {
    if Bites(s.byHost, host) then s.(teeth := s.teeth + 1) else s
  }

  /** A denial of a host already in quarantine is the engine hearing itself. */
  predicate Echo(s: Ledger, host: string, blocked: bool) {
    blocked && host in s.byHost && s.byHost[host].sequestrated && s.byHost[host].verdict == Neutral
  }

  predicate TickDue(s: Ledger, now: nat) { Since(now, s.lastTick) >= PERSIST_MIN_GAP_SECS }

  function Heard(law: Law, s: Ledger, host: string, score: Option<Score>, now: nat): Ledger {
    if score.Some? then Record(law, s, host, score.value, now) else s
  }

  /** One resolved row: record what it scores, then the self-ticking settle. */
  ghost function Feed(law: Law, s: Ledger, host: string, blocked: bool, score: Option<Score>, now: nat): Ledger {
    if Echo(s, host, blocked) then s
    else
      var heard := Heard(law, s, host, score, now);
      if TickDue(s, now) then Settle(law, heard.(lastTick := now), now) else heard
  }

  // ---- The store ----

  /** The retest, else one healing step, else nothing. */
  method SettleRow(law: Law, host: string, e: Entry, now: nat) returns (settled: Entry, healed: nat)
    ensures settled == Settled(law, host, e, now) && healed == Restored(law, host, e, now)
  {
    var start := law.start(host);
    if Retests(law, e, now) {
      healed := Max(start - e.points, 0);
      return e.(sequestrated := false, seqAt := 0, points := start, lastHeal := now), healed;
    }
    if e.sequestrated || ActiveDestroy(e.risk) || e.points >= start { return e, 0; }
    var idleSince := Max(e.lastSeen, e.lastHeal);
    if Since(now, idleSince) >= RECOVERY_IDLE_SECS {
      return e.(points := if e.points + RECOVERY_STEP <= start then e.points + RECOVERY_STEP else start, lastHeal := now),
             RECOVERY_STEP;
    }
    return e, 0;
  }

  /** The rows in `todo` are still as they were, the others as in `done`. */
  ghost predicate Partly<V>(rows: map<string, V>, done: map<string, V>, current: map<string, V>, todo: set<string>) {
    && todo <= rows.Keys == current.Keys == done.Keys
    && forall h :: h in rows ==> current[h] == if h in todo then rows[h] else done[h]
  }

  lemma PartlyMore<V>(rows: map<string, V>, done: map<string, V>, current: map<string, V>, todo: set<string>, h: string)
    requires Partly(rows, done, current, todo) && h in todo
    ensures h in current && current[h] == rows[h] && Partly(rows, done, current[h := done[h]], todo - {h})
  {}

  lemma PartlyAll<V>(rows: map<string, V>, done: map<string, V>, current: map<string, V>)
    requires Partly(rows, done, current, {})
    ensures current == done
  {}

  lemma CountMore(m: map<string, int>, todo: set<string>, h: string)
    requires h in todo && h in m
    ensures Total(m - (todo - {h})) == Total(m - todo) + m[h]
  {
    var more := m - (todo - {h});
    TotalRemove(more, h);
    assert more - {h} == m - todo;
  }

  /** All rows but those in `todo` are settled, and their points counted. */
  ghost predicate Halfway(law: Law, rows: map<string, Entry>, now: nat, current: map<string, Entry>, healed: nat, todo: set<string>) {
    && Partly(rows, SettledRows(law, rows, now), current, todo)
    && healed == Total(RestoredRows(law, rows, now) - todo)
  }

  /** One row settled and counted. */
  method SettleOne(law: Law, rows: map<string, Entry>, now: nat, h: string, before: map<string, Entry>, sum: nat, ghost todo: set<string>)
    returns (current: map<string, Entry>, healed: nat)
    requires Halfway(law, rows, now, before, sum, todo) && h in todo
    ensures Halfway(law, rows, now, current, healed, todo - {h})
  {
    PartlyMore(rows, SettledRows(law, rows, now), before, todo, h);
    CountMore(RestoredRows(law, rows, now), todo, h);
    var e, more := SettleRow(law, h, before[h], now);
    current, healed := before[h := e], sum + more;
  }

  lemma HalfwayStart(law: Law, rows: map<string, Entry>, now: nat)
    ensures Halfway(law, rows, now, rows, 0, rows.Keys)
  {
    assert RestoredRows(law, rows, now) - rows.Keys == map[];
  }

  lemma HalfwayEnd(law: Law, rows: map<string, Entry>, now: nat, current: map<string, Entry>, healed: nat)
    requires Halfway(law, rows, now, current, healed, {})
    ensures current == SettledRows(law, rows, now) && healed == Total(RestoredRows(law, rows, now))
  {
    PartlyAll(rows, SettledRows(law, rows, now), current);
    assert RestoredRows(law, rows, now) - {} == RestoredRows(law, rows, now);
  }

  /** Settle the rows in whatever order the map yields them. */
  method SettleRows(law: Law, rows: map<string, Entry>, now: nat) returns (current: map<string, Entry>, healed: nat)
    ensures current == SettledRows(law, rows, now) && healed == Total(RestoredRows(law, rows, now))
  {
    current, healed := rows, 0;
    var todo := rows.Keys;
    HalfwayStart(law, rows, now);
    while todo != {}
      invariant Halfway(law, rows, now, current, healed, todo)
      decreases |todo|
    {
      var h :| h in todo;
      current, healed := SettleOne(law, rows, now, h, current, healed, todo);
      todo := todo - {h};
    }
    HalfwayEnd(law, rows, now, current, healed);
  }

  class Store {
    var byHost: map<string, Entry>
    var recordedTotal: nat
    var recoveredTotal: nat
    var teethTotal: nat
    var lastTick: nat

    ghost function View(): Ledger reads this { Ledger(byHost, recordedTotal, recoveredTotal, teethTotal, lastTick) }

    constructor ()
      ensures View() == Ledger(map[], 0, 0, 0, 0)
    {
      byHost, recordedTotal, recoveredTotal, teethTotal, lastTick := map[], 0, 0, 0, 0;
    }

    /** The licence side of an accident, the row already found or made. */
    method RecordScored(law: Law, host: string, score: Score, now: nat)
      modifies this`byHost, this`recordedTotal
      ensures View() == Record(law, old(View()), host, score, now)
    {
      if host == "" { return; }
      recordedTotal := recordedTotal + 1;
      if host !in byHost {
        byHost := byHost[host := FreshEntry(law, host, score.risk, score.source, now)];
      }
      var e := byHost[host];
      var firstWitness, priorSeen := e.hits == 0, e.lastSeen;
      e := e.(hits := e.hits + 1, lastSeen := now);
      var duplicate := !firstWitness && priorSeen == now;
      if !duplicate && e.source != Centauri {
        e := Deduct(law, host, e, score.weight, now);
      }
      byHost := byHost[host := e];
    }

    method SetVerdict(law: Law, host: string, code: nat, now: nat) returns (ok: bool)
      modifies this`byHost
      ensures View() == Pin(law, old(View()), host, code, now) && ok == (host != "")
    {
      if host == "" { return false; }
      var e := if host in byHost then byHost[host] else FreshEntry(law, host, Tracker, Suffix, now);
      byHost := byHost[host := Pinned(law, host, e, FromCode(code), now)];
      ok := true;
    }

    /** One pass over the rows. */
    method SettleRecovery(law: Law, now: nat)
      modifies this`byHost, this`recoveredTotal
      ensures View() == Settle(law, old(View()), now)
    {
      var healed;
      byHost, healed := SettleRows(law, byHost, now);
      recoveredTotal := recoveredTotal + healed;
    }

    method TeethGate(host: string) returns (bite: bool)
      modifies this`teethTotal
      ensures bite <==> Bites(byHost, host)
      ensures View() == Gate(old(View()), host)
    {
      if host !in byHost { return false; }
      match byHost[host].verdict {
        case Trusted => { bite := false; }
        case Distrusted => { bite := true; }
        case Neutral => { bite := byHost[host].sequestrated; }
      }
      if bite { teethTotal := teethTotal + 1; }
    }

    method FeedRow(law: Law, host: string, blocked: bool, score: Option<Score>, now: nat)
      modifies this
      ensures View() == Feed(law, old(View()), host, blocked, score, now)
    {
      if blocked && host in byHost && byHost[host].sequestrated && byHost[host].verdict == Neutral { return; }
      if score.Some? { RecordScored(law, host, score.value, now); }
      if Since(now, lastTick) >= PERSIST_MIN_GAP_SECS {
        lastTick := now;
        SettleRecovery(law, now);
      }
    }
  }
}
