/** The discovery ledger: content hosts met in traffic are counted, and those that recur are promoted
    into a published roster that must agree with the ledger across restarts. */
module Discovery {
  import opened Sequences
  import opened Names

  const MAX_DISCOVERED: nat := 4096
  const MIN_PROMOTION_HITS: nat := 3
  const MAX_PROMOTED: nat := 256

  datatype Marker = Infra | Label

  datatype Entry = Entry(hits: nat, firstSeen: nat, lastSeen: nat, marker: Marker)

  type Rows = map<string, Entry>

  // ---- The roster a ledger earns ----

  function Eligible(m: Rows): set<string> { set h | h in m && m[h].hits >= MIN_PROMOTION_HITS }

  /** More hits first; ties by host name. */
  predicate Outranks(m: Rows, a: string, b: string)
    requires a in m && b in m
  {
    m[a].hits > m[b].hits || (m[a].hits == m[b].hits && a != b && NameLe(a, b))
  }

  lemma OutranksTotal(m: Rows, a: string, b: string)
    requires a in m && b in m
    ensures !(Outranks(m, a, b) && Outranks(m, b, a))
    ensures a == b || Outranks(m, a, b) || Outranks(m, b, a)
  {
    NameLeTotal(a, b);
  }

  lemma OutranksTransitive(m: Rows, a: string, b: string, c: string)
    requires a in m && b in m && c in m && Outranks(m, a, b) && Outranks(m, b, c)
    ensures Outranks(m, a, c)
  {
    if m[a].hits == m[b].hits == m[c].hits {
      NameLeTransitive(a, b, c);
      NameLeTotal(a, b);
    }
  }

  /** The set `s`, in rank order. */
  ghost predicate Ranked(m: Rows, s: set<string>, xs: seq<string>) {
    && s <= m.Keys
    && (forall h :: h in xs <==> h in s)
    && forall i, j :: 0 <= i < j < |xs| ==> xs[i] in m && xs[j] in m && Outranks(m, xs[i], xs[j])
  }

  function InsertRanked(m: Rows, x: string, xs: seq<string>): seq<string>
    requires x in m && forall h :: h in xs ==> h in m
  {
    if xs == [] then [x]
    else if Outranks(m, x, xs[0]) then [x] + xs
    else [xs[0]] + InsertRanked(m, x, xs[1..])
  }

  lemma {:induction false} InsertRankedMembers(m: Rows, x: string, xs: seq<string>)
    requires x in m && forall h :: h in xs ==> h in m
    ensures forall h :: h in InsertRanked(m, x, xs) <==> h == x || h in xs
  {
    if xs != [] && !Outranks(m, x, xs[0]) {
      InsertRankedMembers(m, x, xs[1..]);
      assert xs == [xs[0]] + xs[1..];
    }
  }

  lemma TailRanked(m: Rows, s: set<string>, xs: seq<string>)
    requires Ranked(m, s, xs) && xs != []
    ensures Ranked(m, s - {xs[0]}, xs[1..]) && xs[0] in s
  {
    forall h ensures h in xs[1..] <==> h in s - {xs[0]} {
      if h in s - {xs[0]} {
        var i :| 0 <= i < |xs| && xs[i] == h;
        assert xs[1..][i - 1] == h;
      }
      if h in xs[1..] {
        var i :| 0 <= i < |xs[1..]| && xs[1..][i] == h;
        assert xs[i + 1] == h && Outranks(m, xs[0], xs[i + 1]);
        OutranksTotal(m, xs[0], h);
      }
    }
  }

  lemma {:induction false} InsertRankedOrders(m: Rows, s: set<string>, x: string, xs: seq<string>)
    requires Ranked(m, s, xs) && x in m && x !in s
    ensures Ranked(m, s + {x}, InsertRanked(m, x, xs))
    decreases |xs|
  {
    InsertRankedMembers(m, x, xs);
    if xs != [] {
      TailRanked(m, s, xs);
      OutranksTotal(m, x, xs[0]);
      if Outranks(m, x, xs[0]) {
        forall j | 0 <= j < |xs| ensures xs[j] in m && Outranks(m, x, xs[j]) {
          if j > 0 { OutranksTransitive(m, x, xs[0], xs[j]); }
        }
      } else {
        InsertRankedOrders(m, s - {xs[0]}, x, xs[1..]);
        var rest := InsertRanked(m, x, xs[1..]);
        forall j | 0 <= j < |rest| ensures rest[j] in m && Outranks(m, xs[0], rest[j]) {
          assert rest[j] in rest;
          if rest[j] != x {
            var i :| 0 <= i < |xs[1..]| && xs[1..][i] == rest[j];
            assert xs[i + 1] == rest[j];
          }
        }
      }
    }
  }

  lemma {:induction false} RankedSize(m: Rows, s: set<string>, xs: seq<string>)
    requires Ranked(m, s, xs)
    ensures |xs| == |s|
    decreases |xs|
  {
    if xs == [] {
      assert s == {};
    } else {
      TailRanked(m, s, xs);
      RankedSize(m, s - {xs[0]}, xs[1..]);
    }
  }

  /** A set has one ranking. */
  lemma {:induction false} RankedUnique(m: Rows, s: set<string>, xs: seq<string>, ys: seq<string>)
    requires Ranked(m, s, xs) && Ranked(m, s, ys)
    ensures xs == ys
    decreases |xs|
  {
    RankedSize(m, s, xs);
    RankedSize(m, s, ys);
    if xs != [] {
      assert xs[0] in xs && ys[0] in ys;
      assert xs[0] in ys && ys[0] in xs;
      var i :| 0 <= i < |ys| && ys[i] == xs[0];
      var j :| 0 <= j < |xs| && xs[j] == ys[0];
      OutranksTotal(m, xs[0], ys[0]);
      TailRanked(m, s, xs);
      TailRanked(m, s, ys);
      RankedUnique(m, s - {xs[0]}, xs[1..], ys[1..]);
      assert xs == [xs[0]] + xs[1..] && ys == [ys[0]] + ys[1..];
    }
  }

  /** The roster: the highest-ranked eligible hosts, up to the ceiling. */
  ghost predicate IsRoster(m: Rows, roster: seq<string>) {
    exists xs :: Ranked(m, Eligible(m), xs) && roster == Truncate(xs)
  }

  function Truncate(xs: seq<string>): seq<string> {
    if |xs| <= MAX_PROMOTED then xs else xs[..MAX_PROMOTED]
  }

  /** Collect, rank, truncate. */
  method Promotable(m: Rows) returns (roster: seq<string>)
    ensures IsRoster(m, roster)
  {
    var todo := Eligible(m);
    ghost var done: set<string> := {};
    var xs: seq<string> := [];
    while todo != {}
      invariant done + todo == Eligible(m) && done !! todo && Ranked(m, done, xs)
      decreases |todo|
    {
      var h :| h in todo;
      InsertRankedOrders(m, done, h, xs);
      xs := InsertRanked(m, h, xs);
      todo, done := todo - {h}, done + {h};
    }
    assert done == Eligible(m);
    roster := Truncate(xs);
  }

  ghost function Members(roster: seq<string>): set<string> { set h | h in roster }

  /** What a roster is, spelled out: eligible hosts only, as many as the ceiling allows, none left out
      that outranks one let in; and it is a function of the ledger. */
  lemma RosterMeans(m: Rows, roster: seq<string>)
    requires IsRoster(m, roster)
    ensures Members(roster) <= Eligible(m)
    ensures |roster| == if |Eligible(m)| <= MAX_PROMOTED then |Eligible(m)| else MAX_PROMOTED
    ensures |Eligible(m)| <= MAX_PROMOTED ==> Members(roster) == Eligible(m)
    ensures forall h, k :: h in Eligible(m) && h !in roster && k in roster ==> k in m && Outranks(m, k, h)
  {
    var xs :| Ranked(m, Eligible(m), xs) && roster == Truncate(xs);
    RankedSize(m, Eligible(m), xs);
    assert forall q :: 0 <= q < |roster| ==> roster[q] == xs[q] && roster[q] in roster;
    forall h, k | h in Eligible(m) && h !in roster && k in roster ensures k in m && Outranks(m, k, h) {
      assert h in xs;
      var i :| 0 <= i < |xs| && xs[i] == h;
      var j :| 0 <= j < |roster| && roster[j] == k;
      assert xs[j] == k;
    }
  }

  lemma RosterUnique(m: Rows, a: seq<string>, b: seq<string>)
    requires IsRoster(m, a) && IsRoster(m, b)
    ensures a == b
  {
    var xs :| Ranked(m, Eligible(m), xs) && a == Truncate(xs);
    var ys :| Ranked(m, Eligible(m), ys) && b == Truncate(ys);
    RankedUnique(m, Eligible(m), xs, ys);
  }

  // ---- The ledger and its steps ----

  /** What the process holds: the ledger, whether the feed is open, and the last published roster. */
  datatype State = State(byHost: Rows, observed: nat, armed: bool, roster: seq<string>)

  /** A process that has just started. */
  const COLD: State := State(map[], 0, false, [])

  /** The rows after one more sighting; a full ledger counts known hosts and stores no new one. */
  function Sighted(m: Rows, host: string, marker: Marker, now: nat): Rows {
    if host in m then m[host := m[host].(hits := m[host].hits + 1, lastSeen := now)]
    else if |m| < MAX_DISCOVERED then m[host := Entry(1, now, now, marker)]
    else m
  }

  /** The sighting lands exactly on the promotion line. */
  predicate Crosses(m: Rows, host: string) { host in m && m[host].hits + 1 == MIN_PROMOTION_HITS }

  /** The rows after merging a stored ledger; rows already held win. */
  function Merged(m: Rows, stored: seq<(string, Entry)>): Rows
    decreases |stored|
  {
    if stored == [] || |m| >= MAX_DISCOVERED then m
    else Merged(if stored[0].0 in m then m else m[stored[0].0 := stored[0].1], stored[1..])
  }

  /** An empty roster is not published. */
  predicate Publishes(before: seq<string>, roster: seq<string>, after: seq<string>) {
    after == if roster == [] then before else roster
  }

  datatype Event =
    | Observe(host: string, shape: Option<Marker>, alreadyStatic: bool, now: nat)
    | Arm(named: bool, stored: seq<(string, Entry)>, total: nat)
    | Restart

  ghost predicate Next(s: State, ev: Event, t: State) {
    match ev
    case Restart => t == COLD
    case Observe(host, shape, alreadyStatic, now) =>
      if !s.armed || alreadyStatic || shape.None? then t == s
      else
        && t.byHost == Sighted(s.byHost, host, shape.value, now)
        && t.observed == s.observed + 1 && t.armed
        && (if Crosses(s.byHost, host) then
              exists r :: IsRoster(t.byHost, r) && Publishes(s.roster, r, t.roster)
            else t.roster == s.roster)
    case Arm(named, stored, total) =>
      if !named then t == s
      else
        && t.byHost == Merged(s.byHost, stored)
        && t.observed == (if s.observed < total then total else s.observed) && t.armed
        && exists r :: IsRoster(t.byHost, r) && Publishes(s.roster, r, t.roster)
  }

  class Ledger {
    var byHost: Rows
    var observed: nat
    var armed: bool
    var roster: seq<string>

    ghost function View(): State reads this { State(byHost, observed, armed, roster) }

    /** Start, or restart, cold. */
    constructor ()
      ensures View() == COLD
    {
      byHost, observed, armed, roster := map[], 0, false, [];
    }

    method Publish()
      modifies this`roster
      ensures exists r :: IsRoster(byHost, r) && Publishes(old(roster), r, roster)
    {
      var promoted := Promotable(byHost);
      if promoted != [] { roster := promoted; }
      assert IsRoster(byHost, promoted) && Publishes(old(roster), promoted, roster);
    }

    method ObserveHost(host: string, shape: Option<Marker>, alreadyStatic: bool, now: nat)
      modifies this
      ensures Next(old(View()), Observe(host, shape, alreadyStatic, now), View())
    {
      if !armed || alreadyStatic || shape.None? { return; }
      var crossed := false;
      observed := observed + 1;
      if host in byHost {
        var e := byHost[host];
        byHost := byHost[host := e.(hits := e.hits + 1, lastSeen := now)];
        crossed := e.hits + 1 == MIN_PROMOTION_HITS;
      } else if |byHost| < MAX_DISCOVERED {
        byHost := byHost[host := Entry(1, now, now, shape.value)];
      }
      if crossed { Publish(); }
    }

    /** The rehydrating loop: stop at the cap, never overwrite. */
    method LoadStore(stored: seq<(string, Entry)>, total: nat)
      modifies this`byHost, this`observed
      ensures byHost == Merged(old(byHost), stored)
      ensures observed == if old(observed) < total then total else old(observed)
    {
      if observed < total { observed := total; }
      var i := 0;
      assert stored[0..] == stored;
      while i < |stored| && |byHost| < MAX_DISCOVERED
        invariant observed == if old(observed) < total then total else old(observed)
        invariant i <= |stored| && Merged(byHost, stored[i..]) == Merged(old(byHost), stored)
      {
        assert stored[i..][1..] == stored[i + 1..];
        if stored[i].0 !in byHost { byHost := byHost[stored[i].0 := stored[i].1]; }
        i := i + 1;
      }
    }

    method ArmStore(named: bool, stored: seq<(string, Entry)>, total: nat)
      modifies this
      ensures Next(old(View()), Arm(named, stored, total), View())
    {
      if !named { return; }
      LoadStore(stored, total);
      armed := true;
      Publish();
    }
  }

  // ---- Every run ----

  /** The ledger fits; before arming nothing is known; the roster names promoted hosts only, as many as
      the ceiling allows. */
  ghost predicate Agrees(s: State) {
    var all := Eligible(s.byHost);
    && |s.byHost| <= MAX_DISCOVERED
    && (!s.armed ==> s.byHost == map[])
    && Members(s.roster) <= all
    && |Members(s.roster)| == if |all| <= MAX_PROMOTED then |all| else MAX_PROMOTED
  }

  lemma SubsetOfSameSize(a: set<string>, b: set<string>)
    requires a <= b && |a| == |b|
    ensures a == b
  {
    if a != b {
      var x :| x in b && x !in a;
      SubsetSize(a, b - {x});
    }
  }

  lemma {:induction false} SubsetSize(a: set<string>, b: set<string>)
    requires a <= b
    ensures |a| <= |b|
    decreases |a|
  {
    if a != {} {
      var x :| x in a;
      SubsetSize(a - {x}, b - {x});
    }
  }

  /** Up to the ceiling, the published roster is exactly the set of hosts past the promotion line. */
  lemma AgreesExactly(s: State)
    requires Agrees(s) && |Eligible(s.byHost)| <= MAX_PROMOTED
    ensures Members(s.roster) == Eligible(s.byHost)
  {
    SubsetOfSameSize(Members(s.roster), Eligible(s.byHost));
  }

  lemma {:induction false} MembersSize(m: Rows, xs: seq<string>)
    requires forall i, j :: 0 <= i < j < |xs| ==> xs[i] != xs[j]
    ensures |Members(xs)| == |xs|
    decreases |xs|
  {
    if xs != [] {
      var n := |xs| - 1;
      MembersSize(m, xs[..n]);
      assert xs == xs[..n] + [xs[n]];
      assert Members(xs) == Members(xs[..n]) + {xs[n]};
    }
  }

  lemma PublishedAgrees(m: Rows, before: seq<string>, r: seq<string>, after: seq<string>)
    requires IsRoster(m, r) && Publishes(before, r, after) && Members(before) <= Eligible(m)
    ensures Members(after) <= Eligible(m)
    ensures |Members(after)| == if |Eligible(m)| <= MAX_PROMOTED then |Eligible(m)| else MAX_PROMOTED
  {
    RosterMeans(m, r);
    if r == [] {
      assert Eligible(m) == {};
      assert Members(before) == {};
    } else {
      var xs :| Ranked(m, Eligible(m), xs) && r == Truncate(xs);
      forall i, j | 0 <= i < j < |r| ensures r[i] != r[j] {
        assert Outranks(m, xs[i], xs[j]);
        OutranksTotal(m, xs[i], xs[j]);
      }
      MembersSize(m, r);
    }
  }

  lemma SightedEligible(m: Rows, host: string, marker: Marker, now: nat)
    ensures Eligible(m) <= Eligible(Sighted(m, host, marker, now))
    ensures !Crosses(m, host) ==> Eligible(Sighted(m, host, marker, now)) == Eligible(m)
    ensures |m| <= MAX_DISCOVERED ==> |Sighted(m, host, marker, now)| <= MAX_DISCOVERED
  {}

  lemma {:induction false} MergedKeeps(m: Rows, stored: seq<(string, Entry)>)
    ensures |m| <= MAX_DISCOVERED ==> |Merged(m, stored)| <= MAX_DISCOVERED
    ensures forall h :: h in m ==> h in Merged(m, stored) && Merged(m, stored)[h] == m[h]
    decreases |stored|
  {
    if stored != [] && |m| < MAX_DISCOVERED {
      MergedKeeps(if stored[0].0 in m then m else m[stored[0].0 := stored[0].1], stored[1..]);
    }
  }

  lemma StepAgrees(s: State, ev: Event, t: State)
    requires Agrees(s) && Next(s, ev, t)
    ensures Agrees(t)
  {
    match ev {
      case Restart => {
        assert Eligible(map[]) == {} && Members([]) == {};
      }
      case Observe(host, shape, alreadyStatic, now) => {
        if s.armed && !alreadyStatic && shape.Some? {
          SightedEligible(s.byHost, host, shape.value, now);
          if Crosses(s.byHost, host) {
            var r :| IsRoster(t.byHost, r) && Publishes(s.roster, r, t.roster);
            PublishedAgrees(t.byHost, s.roster, r, t.roster);
          }
        }
      }
      case Arm(named, stored, total) => {
        if named {
          MergedKeeps(s.byHost, stored);
          assert Eligible(s.byHost) <= Eligible(t.byHost);
          var r :| IsRoster(t.byHost, r) && Publishes(s.roster, r, t.roster);
          PublishedAgrees(t.byHost, s.roster, r, t.roster);
        }
      }
    }
  }

  /** A run of the process, restarts included. */
  ghost predicate IsRun(states: seq<State>, events: seq<Event>) {
    && |states| == |events| + 1 && states[0] == COLD
    && forall i :: 0 <= i < |events| ==> Next(states[i], events[i], states[i + 1])
  }

  /** At every point of every run the ledger is within its cap and the roster agrees with it: exactly
      the hosts past the line while those fit, the ceiling's worth of them otherwise. */
  lemma {:induction false} RosterAgrees(states: seq<State>, events: seq<Event>, i: nat)
    requires IsRun(states, events) && i < |states|
    ensures Agrees(states[i])
    ensures |Eligible(states[i].byHost)| <= MAX_PROMOTED ==> Members(states[i].roster) == Eligible(states[i].byHost)
    decreases i
  {
    if i == 0 {
      assert Eligible(map[]) == {} && Members([]) == {};
    } else {
      RosterAgrees(states, events, i - 1);
      assert Next(states[i - 1], events[i - 1], states[i]);
      StepAgrees(states[i - 1], events[i - 1], states[i]);
    }
    if |Eligible(states[i].byHost)| <= MAX_PROMOTED { AgreesExactly(states[i]); }
  }

  /** A full ledger still counts the hosts it knows, and only those. */
  lemma FullLedgerCounts(s: State, host: string, shape: Marker, now: nat, t: State, h: string)
    requires s.armed && |s.byHost| == MAX_DISCOVERED && Next(s, Observe(host, Some(shape), false, now), t)
    ensures t.byHost.Keys == s.byHost.Keys && t.observed == s.observed + 1
    ensures h in s.byHost ==> t.byHost[h].hits == s.byHost[h].hits + (if h == host then 1 else 0)
  {}

  // ---- Restarts ----

  /** The stored rows are those of the ledger, each host once. */
  ghost predicate Stores(stored: seq<(string, Entry)>, m: Rows) {
    && (forall i, j :: 0 <= i < j < |stored| ==> stored[i].0 != stored[j].0)
    && forall h, e :: (h, e) in stored <==> h in m && m[h] == e
  }

  lemma {:induction false} MergedAll(m: Rows, stored: seq<(string, Entry)>, whole: Rows)
    requires |whole| <= MAX_DISCOVERED && m.Keys <= whole.Keys
    requires forall h :: h in m ==> m[h] == whole[h]
    requires forall i :: 0 <= i < |stored| ==> stored[i].0 in whole && stored[i].1 == whole[stored[i].0]
    requires forall h :: h in whole && h !in m ==> (h, whole[h]) in stored
    ensures Merged(m, stored) == whole
    decreases |stored|
  {
    if |m| >= MAX_DISCOVERED {
      SubsetSize(m.Keys, whole.Keys);
      SubsetOfSameSize(m.Keys, whole.Keys);
      assert m == whole;
    } else if stored == [] {
      assert m == whole;
    } else {
      var next := if stored[0].0 in m then m else m[stored[0].0 := stored[0].1];
      forall h | h in whole && h !in next ensures (h, whole[h]) in stored[1..] {
        var i :| 0 <= i < |stored| && stored[i] == (h, whole[h]);
        assert stored[1..][i - 1] == (h, whole[h]);
      }
      MergedAll(next, stored[1..], whole);
    }
  }

  /** A restart that reloads the stored ledger loses nothing: same rows, same total, and, up to the
      ceiling, the same published hosts. */
  lemma RestartRestores(s: State, stored: seq<(string, Entry)>, t: State)
    requires Agrees(s) && Stores(stored, s.byHost)
    requires Next(COLD, Arm(true, stored, s.observed), t)
    ensures t.byHost == s.byHost && t.observed == s.observed && t.armed
    ensures |Eligible(s.byHost)| <= MAX_PROMOTED ==> Members(t.roster) == Members(s.roster)
  {
    forall i | 0 <= i < |stored| ensures stored[i].0 in s.byHost && stored[i].1 == s.byHost[stored[i].0] {
      assert (stored[i].0, stored[i].1) in stored;
    }
    MergedAll(map[], stored, s.byHost);
    assert Eligible(map[]) == {} && Members([]) == {};
    StepAgrees(COLD, Arm(true, stored, s.observed), t);
    if |Eligible(s.byHost)| <= MAX_PROMOTED {
      AgreesExactly(s);
      AgreesExactly(t);
    }
  }

  /** No eligible host outside outranks one inside. */
  ghost predicate IsTop(m: Rows, inside: set<string>) {
    && inside <= Eligible(m)
    && forall h, k :: h in Eligible(m) && h !in inside && k in inside ==> Outranks(m, k, h)
  }

  /** Still ahead of `x` once that host is seen once more. */
  predicate StaysAhead(m: Rows, k: string, x: string) {
    k in m && x in m &&
    (m[k].hits > m[x].hits + 1 || (m[k].hits == m[x].hits + 1 && k != x && NameLe(k, x)))
  }

  /** Past the ceiling the live roster need not follow the ranking: after a sighting that publishes
      nothing it is still the top of the ranking if and only if, before it, the host seen was in it, was
      not eligible, or was more than the sighting behind all of it. */
  lemma RosterLagsExactly(s: State, x: string, marker: Marker, now: nat, t: State)
    requires s.armed && IsTop(s.byHost, Members(s.roster)) && !Crosses(s.byHost, x)
    requires Next(s, Observe(x, Some(marker), false, now), t)
    ensures t.roster == s.roster
    ensures IsTop(t.byHost, Members(t.roster)) <==>
            x in s.roster || x !in Eligible(s.byHost) || forall k :: k in s.roster ==> StaysAhead(s.byHost, k, x)
  {
    SightedEligible(s.byHost, x, marker, now);
    var inside := Members(s.roster);
    forall h, k | h in Eligible(t.byHost) && h !in inside && k in inside && h != x
      ensures Outranks(t.byHost, k, h)
    {
      assert Outranks(s.byHost, k, h);
    }
    if x !in s.roster && x in Eligible(s.byHost) {
      forall k | k in s.roster ensures k in t.byHost && (Outranks(t.byHost, k, x) <==> StaysAhead(s.byHost, k, x)) {
        assert k in inside;
      }
    }
  }

  /** So a promoted host left out on a tie overtakes one let in, and the roster lags. */
  lemma LiveRosterCanLag(s: State, x: string, y: string, marker: Marker, now: nat, t: State)
    requires s.armed && IsTop(s.byHost, Members(s.roster)) && x in Eligible(s.byHost) && x !in s.roster && y in s.roster
    requires y in s.byHost && s.byHost[x].hits == s.byHost[y].hits
    requires Next(s, Observe(x, Some(marker), false, now), t)
    ensures t.roster == s.roster && !IsTop(t.byHost, Members(t.roster))
  {
    RosterLagsExactly(s, x, marker, now, t);
    assert !StaysAhead(s.byHost, y, x);
  }

  // ---- Such a run: one host more than the roster holds, all of them tied ----

  /** A host name of `n + 1` letters. */
  function Host(n: nat): string { seq(n + 1, i => 'a') }

  const TIED: Entry := Entry(MIN_PROMOTION_HITS, 0, 0, Infra)

  function TiedRows(n: nat): Rows { if n == 0 then map[] else TiedRows(n - 1)[Host(n - 1) := TIED] }

  function TiedStore(n: nat): seq<(string, Entry)> {
    if n == 0 then [] else TiedStore(n - 1) + [(Host(n - 1), TIED)]
  }

  lemma {:induction false} TiedShape(n: nat)
    ensures |TiedRows(n)| == n && forall h :: h in TiedRows(n) ==> |h| <= n && TiedRows(n)[h] == TIED
  {
    if n > 0 {
      TiedShape(n - 1);
      assert |Host(n - 1)| == n;
    }
  }

  lemma {:induction false} TiedStored(n: nat)
    ensures forall h :: h in TiedRows(n) ==> (h, TIED) in TiedStore(n)
    ensures forall i :: 0 <= i < |TiedStore(n)| ==> TiedStore(n)[i].0 in TiedRows(n) && TiedStore(n)[i].1 == TIED
  {
    if n > 0 { TiedStored(n - 1); }
  }

  lemma {:induction false} RankingExists(m: Rows, s: set<string>) returns (xs: seq<string>)
    requires s <= m.Keys
    ensures Ranked(m, s, xs)
    decreases |s|
  {
    if s == {} {
      xs := [];
    } else {
      var h :| h in s;
      var rest := RankingExists(m, s - {h});
      InsertRankedOrders(m, s - {h}, h, rest);
      assert s - {h} + {h} == s;
      xs := InsertRanked(m, h, rest);
    }
  }

  lemma TiedMerged(n: nat)
    requires n <= MAX_DISCOVERED
    ensures Merged(map[], TiedStore(n)) == TiedRows(n) && Eligible(TiedRows(n)) == TiedRows(n).Keys && |TiedRows(n)| == n
  {
    TiedShape(n);
    TiedStored(n);
    MergedAll(map[], TiedStore(n), TiedRows(n));
  }

  /** Past the ceiling someone eligible is left out. */
  lemma SomeLeftOut(m: Rows, r: seq<string>) returns (x: string)
    requires IsRoster(m, r) && |Eligible(m)| > MAX_PROMOTED
    ensures x in Eligible(m) && x !in r && r != [] && IsTop(m, Members(r))
  {
    RosterMeans(m, r);
    PublishedAgrees(m, [], r, r);
    if Eligible(m) <= Members(r) { SubsetSize(Eligible(m), Members(r)); }
    x :| x in Eligible(m) && x !in Members(r);
  }

  /** Loading more tied rows than the roster holds into a cold process leaves one of them out. */
  lemma TiedArm(n: nat) returns (s: State, x: string)
    requires MAX_PROMOTED < n <= MAX_DISCOVERED
    ensures Next(COLD, Arm(true, TiedStore(n), 0), s)
    ensures s.armed && s.byHost == TiedRows(n) && IsTop(s.byHost, Members(s.roster))
    ensures x in Eligible(s.byHost) && x !in s.roster && s.roster != []
  {
    var m := TiedRows(n);
    TiedMerged(n);
    var xs := RankingExists(m, Eligible(m));
    var r := Truncate(xs);
    assert IsRoster(m, r);
    x := SomeLeftOut(m, r);
    s := State(m, 0, true, r);
    assert Publishes(COLD.roster, r, s.roster);
  }

  /** A cold process that loads them and then sees the host left out once more: the roster was the top of
      the ranking, and is not any longer. */
  lemma LagIsReachable(n: nat) returns (s: State, x: string, t: State)
    requires MAX_PROMOTED < n <= MAX_DISCOVERED
    ensures IsRun([COLD, s, t], [Arm(true, TiedStore(n), 0), Observe(x, Some(Infra), false, 1)])
    ensures IsTop(s.byHost, Members(s.roster)) && !IsTop(t.byHost, Members(t.roster))
  {
    s, x := TiedArm(n);
    TiedShape(n);
    t := State(Sighted(s.byHost, x, Infra, 1), s.observed + 1, true, s.roster);
    var y := s.roster[0];
    assert y in s.roster && y in Members(s.roster) && y in s.byHost;
    LiveRosterCanLag(s, x, y, Infra, 1, t);
  }
}
