/** What the discovery ledger's counts mean over whole runs: hits are sightings, and the roster is the
    hosts seen often enough. */
module Sightings {
  import opened Sequences
  import opened Discovery

  // ---- Hits are sightings ----

  /** The stored row a reload gives a host: the first one with its name. */
  ghost predicate FirstStored(stored: seq<(string, Entry)>, h: string, e: Entry) {
    exists i :: 0 <= i < |stored| && stored[i] == (h, e) && forall j :: 0 <= j < i ==> stored[j].0 != h
  }

  lemma {:induction false} MergedRow(m: Rows, stored: seq<(string, Entry)>, h: string)
    ensures h in m ==> h in Merged(m, stored) && Merged(m, stored)[h] == m[h]
    ensures h !in m && h in Merged(m, stored) ==> FirstStored(stored, h, Merged(m, stored)[h])
    decreases |stored|
  {
    if stored != [] && |m| < MAX_DISCOVERED {
      var next := if stored[0].0 in m then m else m[stored[0].0 := stored[0].1];
      MergedRow(next, stored[1..], h);
      if h !in m && h in Merged(m, stored) {
        if h in next {
          assert stored[0] == (h, next[h]);
        } else {
          var e := Merged(m, stored)[h];
          var i :| 0 <= i < |stored[1..]| && stored[1..][i] == (h, e) && forall j :: 0 <= j < i ==> stored[1..][j].0 != h;
          assert stored[i + 1] == (h, e);
          forall j | 0 <= j < i + 1 ensures stored[j].0 != h { if j > 0 { assert stored[j] == stored[1..][j - 1]; } }
        }
      }
    }
  }

  /** The event is a sighting of `h` that the open feed counts: content-shaped, not already covered, and of
      a host that is known or still fits. */
  predicate Counts(s: State, ev: Event, h: string) {
    && s.armed && ev.Observe? && ev.host == h && !ev.alreadyStatic && ev.shape.Some?
    && (h in s.byHost || |s.byHost| < 4096)
  }

  /** The sightings of `h` counted between two points of a run. */
  ghost function Counted(states: seq<State>, events: seq<Event>, h: string, from: nat, till: nat): nat
    requires |states| == |events| + 1 && from <= till <= |events|
    decreases till
  {
    if from == till then 0
    else Counted(states, events, h, from, till - 1) + (if Counts(states[till - 1], events[till - 1], h) then 1 else 0)
  }

  /** `h` came into the ledger at step `from`: seen for the first time, or loaded with `loaded` hits; and no
      restart followed up to `till`. */
  ghost predicate CameIn(states: seq<State>, events: seq<Event>, h: string, from: nat, till: nat, loaded: nat)
    requires |states| == |events| + 1 && till <= |events|
  {
    && from < till && h !in states[from].byHost && h in states[from + 1].byHost
    && (if events[from].Arm? then (exists e: Entry :: FirstStored(events[from].stored, h, e) && e.hits == loaded)
        else loaded == 0)
    && forall k :: from <= k < till ==> !events[k].Restart?
  }

  /** A row's hits are those it was loaded with and one for every sighting counted since. */
  ghost predicate HitsExplained(states: seq<State>, events: seq<Event>, h: string, till: nat, from: nat, loaded: nat)
    requires |states| == |events| + 1 && till <= |events|
  {
    && CameIn(states, events, h, from, till, loaded) && h in states[till].byHost
    && states[till].byHost[h].hits ==
       loaded + Counted(states, events, h, if events[from].Arm? then from + 1 else from, till)
  }

  lemma RowEnters(s: State, ev: Event, t: State, h: string)
    requires Next(s, ev, t) && h !in s.byHost && h in t.byHost
    ensures ev.Observe? ==> Counts(s, ev, h) && t.byHost[h].hits == 1
    ensures ev.Arm? ==> FirstStored(ev.stored, h, t.byHost[h])
    ensures !ev.Restart?
  {
    if ev.Arm? { MergedRow(s.byHost, ev.stored, h); }
  }

  lemma RowStays(s: State, ev: Event, t: State, h: string)
    requires Next(s, ev, t) && h in s.byHost && !ev.Restart?
    ensures h in t.byHost && t.byHost[h].hits == s.byHost[h].hits + (if Counts(s, ev, h) then 1 else 0)
  {
    if ev.Arm? { MergedRow(s.byHost, ev.stored, h); }
  }

  lemma EntersExplained(states: seq<State>, events: seq<Event>, h: string, i: nat) returns (loaded: nat)
    requires IsRun(states, events) && 0 < i <= |events| && h !in states[i - 1].byHost && h in states[i].byHost
    ensures HitsExplained(states, events, h, i, i - 1, loaded)
  {
    var ev := events[i - 1];
    assert Next(states[i - 1], ev, states[i]);
    RowEnters(states[i - 1], ev, states[i], h);
    loaded := if ev.Arm? then states[i].byHost[h].hits else 0;
    if !ev.Arm? { assert Counted(states, events, h, i - 1, i - 1) == 0; }
  }

  /** In every run, restarts and reloads included, every row is so explained. */
  lemma {:induction false} HitsAreSightings(states: seq<State>, events: seq<Event>, h: string, i: nat)
    returns (from: nat, loaded: nat)
    requires IsRun(states, events) && i <= |events| && h in states[i].byHost
    ensures HitsExplained(states, events, h, i, from, loaded)
    decreases i
  {
    assert i > 0;
    if h in states[i - 1].byHost {
      assert Next(states[i - 1], events[i - 1], states[i]);
      from, loaded := HitsAreSightings(states, events, h, i - 1);
      RowStays(states[i - 1], events[i - 1], states[i], h);
    } else {
      from := i - 1;
      loaded := EntersExplained(states, events, h, i);
    }
  }

  /** A counted sighting stamps its row and no other: the time is the last one seen, the first time and the
      marker stay those of the sighting that opened the row. */
  lemma SightingStamps(s: State, ev: Event, t: State, h: string, other: string)
    requires Next(s, ev, t) && Counts(s, ev, h) && other != h
    ensures h in t.byHost && t.byHost[h].lastSeen == ev.now
    ensures h in s.byHost ==> t.byHost[h].firstSeen == s.byHost[h].firstSeen && t.byHost[h].marker == s.byHost[h].marker
    ensures h !in s.byHost ==> t.byHost[h].firstSeen == ev.now && t.byHost[h].marker == ev.shape.value
    ensures (other in t.byHost <==> other in s.byHost) && (other in s.byHost ==> t.byHost[other] == s.byHost[other])
  {}

  /** The running total counts what passes the gates, stored or not, and a reload only ever raises it. */
  lemma ObservedTotal(s: State, ev: Event, t: State)
    requires Next(s, ev, t) && !ev.Restart?
    ensures ev.Observe? ==>
              t.observed == s.observed + (if s.armed && !ev.alreadyStatic && ev.shape.Some? then 1 else 0)
    ensures ev.Arm? && ev.named ==>
              t.observed >= s.observed && t.observed >= ev.total && (t.observed == s.observed || t.observed == ev.total)
    ensures ev.Arm? && !ev.named ==> t == s
  {}

  // ---- The roster, from the events alone ----

  /** The feed is open: a named store was armed since the last restart. */
  ghost predicate Open(events: seq<Event>) {
    if events == [] then false
    else
      var last := events[|events| - 1];
      if last.Restart? then false else (last.Arm? && last.named) || Open(events[..|events| - 1])
  }

  /** How often the open feed saw `h` since the last restart, content-shaped and not already covered. */
  ghost function Seen(events: seq<Event>, h: string): nat {
    if events == [] then 0
    else
      var before, last := events[..|events| - 1], events[|events| - 1];
      if last.Restart? then 0
      else Seen(before, h) +
           (if last.Observe? && last.host == h && !last.alreadyStatic && last.shape.Some? && Open(before) then 1 else 0)
  }

  ghost predicate NothingStored(events: seq<Event>) {
    forall i :: 0 <= i < |events| ==> events[i].Arm? ==> events[i].stored == []
  }

  /** The state holds exactly what the events say, as far as they fit. */
  ghost predicate Tallied(events: seq<Event>, s: State) {
    && (s.armed <==> Open(events))
    && (|s.byHost| < 4096 ==>
          forall h :: Seen(events, h) == if h in s.byHost then s.byHost[h].hits else 0)
  }

  lemma TallyStep(before: seq<Event>, s: State, ev: Event, t: State)
    requires Tallied(before, s) && Next(s, ev, t) && (ev.Arm? ==> ev.stored == [])
    ensures Tallied(before + [ev], t)
  {
    var events := before + [ev];
    assert events[..|events| - 1] == before;
    if |t.byHost| < 4096 {
      forall h ensures Seen(events, h) == if h in t.byHost then t.byHost[h].hits else 0 {
        if !ev.Restart? { TallyHost(before, s, ev, t, h); }
      }
    }
  }

  lemma TallyHost(before: seq<Event>, s: State, ev: Event, t: State, h: string)
    requires Tallied(before, s) && Next(s, ev, t) && (ev.Arm? ==> ev.stored == []) && !ev.Restart? && |t.byHost| < 4096
    ensures Seen(before + [ev], h) == if h in t.byHost then t.byHost[h].hits else 0
  {
    var events := before + [ev];
    assert events[..|events| - 1] == before;
    assert |s.byHost| < 4096;
    assert Seen(before, h) == if h in s.byHost then s.byHost[h].hits else 0;
  }

  lemma {:induction false} RunTallied(states: seq<State>, events: seq<Event>, i: nat)
    requires IsRun(states, events) && NothingStored(events) && i <= |events|
    ensures Tallied(events[..i], states[i])
    decreases i
  {
    if i > 0 {
      RunTallied(states, events, i - 1);
      assert Next(states[i - 1], events[i - 1], states[i]);
      assert events[..i] == events[..i - 1] + [events[i - 1]];
      TallyStep(events[..i - 1], states[i - 1], events[i - 1], states[i]);
    } else {
      assert events[..0] == [];
    }
  }

  /** Without stored rows, and while neither ceiling is reached, the published roster is exactly the hosts
      the open feed has seen three times or more since the last restart. */
  lemma ThirdSightingPromotes(states: seq<State>, events: seq<Event>, i: nat, h: string)
    requires IsRun(states, events) && NothingStored(events) && i <= |events|
    requires |states[i].byHost| < 4096 && |Eligible(states[i].byHost)| <= 256
    ensures h in states[i].roster <==> Seen(events[..i], h) >= 3
  {
    RunTallied(states, events, i);
    RosterAgrees(states, events, i);
    assert h in states[i].roster <==> h in Members(states[i].roster);
    assert Seen(events[..i], h) == if h in states[i].byHost then states[i].byHost[h].hits else 0;
  }
}
