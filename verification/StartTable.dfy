/** Address-range attribution: the two table generators (AS names and country codes), which keep
    disjoint ranges first-in-wins and compile them into a start-table with gap sentinels, and the
    binary search that reads such a table from its bytes. */
module StartTable {
  import opened Sequences
  import opened Bytes

  /** An inclusive range of keys. */
  datatype Range<V> = Range(start: nat, end: nat, value: V)

  /** One table row; it claims the keys from `key` up to the next row's key. */
  datatype Record<V> = Record(key: nat, value: V)

  // ---- Keeping ranges: first in wins ----

  predicate Overlap<V>(a: Range<V>, b: Range<V>) {
    a.start <= b.end && b.start <= a.end
  }

  /** The ordered map of ranges, as its entries in key order: proper, ascending, disjoint. */
  ghost predicate Ordered<V>(rs: seq<Range<V>>) {
    && (forall i :: 0 <= i < |rs| ==> rs[i].start <= rs[i].end)
    && (forall i, j :: 0 <= i < j < |rs| ==> rs[i].end < rs[j].start)
  }

  /** How many entries start at or below `key` (the split point of an ordered-map range query). */
  function StartsUpTo<V>(rs: seq<Range<V>>, key: nat): (n: nat)
    ensures n <= |rs|
    ensures forall i :: 0 <= i < n ==> rs[i].start <= key
    ensures n < |rs| ==> rs[n].start > key
  {
    if rs == [] || rs[0].start > key then 0 else 1 + StartsUpTo(rs[1..], key)
  }

  /** Two neighbour checks decide whether `r` may enter. */
  predicate Refused<V>(rs: seq<Range<V>>, r: Range<V>) {
    var n := StartsUpTo(rs, r.start);
    || (n > 0 && rs[n - 1].end >= r.start)
    || (n < |rs| && rs[n].start <= r.end)
  }

  function Insert<V>(rs: seq<Range<V>>, r: Range<V>): seq<Range<V>> {
    if Refused(rs, r) then rs
    else var n := StartsUpTo(rs, r.start); rs[..n] + [r] + rs[n..]
  }

  ghost function Elements<V>(rs: seq<Range<V>>): set<Range<V>> {
    set k | k in rs
  }

  ghost predicate Clashes<V>(kept: set<Range<V>>, r: Range<V>) {
    exists o :: o in kept && Overlap(o, r)
  }

  /** The neighbour checks see every overlap. */
  lemma RefusedIffOverlap<V>(rs: seq<Range<V>>, r: Range<V>)
    requires Ordered(rs) && r.start <= r.end
    ensures Refused(rs, r) <==> Clashes(Elements(rs), r)
  {
    var n := StartsUpTo(rs, r.start);
    if Refused(rs, r) {
      var k := if n > 0 && rs[n - 1].end >= r.start then rs[n - 1] else rs[n];
      assert k in Elements(rs) && Overlap(k, r);
    } else {
      forall i | 0 <= i < |rs| ensures !Overlap(rs[i], r) {}
    }
  }

  lemma OrderedSplice<V>(a: seq<Range<V>>, r: Range<V>, b: seq<Range<V>>)
    requires Ordered(a) && Ordered(b) && r.start <= r.end
    requires forall i :: 0 <= i < |a| ==> a[i].end < r.start
    requires forall i :: 0 <= i < |b| ==> r.end < b[i].start
    ensures Ordered(a + [r] + b)
  {
    var t := a + [r] + b;
    forall i, j | 0 <= i < j < |t| ensures t[i].end < t[j].start {
      if i < |a| {
        assert t[i] == a[i];
        assert j > |a| ==> t[j] == b[j - |a| - 1];
      } else {
        assert t[j] == b[j - |a| - 1];
        assert i > |a| ==> t[i] == b[i - |a| - 1];
      }
    }
  }

  lemma InsertOrdered<V>(rs: seq<Range<V>>, r: Range<V>)
    requires Ordered(rs) && r.start <= r.end
    ensures Ordered(Insert(rs, r))
  {
    if !Refused(rs, r) {
      var n := StartsUpTo(rs, r.start);
      forall i | 0 <= i < n ensures rs[i].end < r.start {
        assert i < n - 1 ==> rs[i].end < rs[n - 1].start;
      }
      forall i | n <= i < |rs| ensures r.end < rs[i].start {
        assert i > n ==> rs[n].end < rs[i].start;
      }
      OrderedSplice(rs[..n], r, rs[n..]);
    }
  }

  /** First in wins: a range enters exactly when it overlaps nothing kept so far. */
  lemma InsertKeeps<V>(rs: seq<Range<V>>, r: Range<V>)
    requires Ordered(rs) && r.start <= r.end
    ensures Elements(Insert(rs, r)) ==
            if Clashes(Elements(rs), r) then Elements(rs) else Elements(rs) + {r}
  {
    RefusedIffOverlap(rs, r);
    if !Refused(rs, r) { ElementsInserted(rs, StartsUpTo(rs, r.start), r); }
  }

  lemma ElementsInserted<V>(rs: seq<Range<V>>, n: nat, r: Range<V>)
    requires n <= |rs|
    ensures Elements(rs[..n] + [r] + rs[n..]) == Elements(rs) + {r}
  {
    assert rs == rs[..n] + rs[n..];
  }

  ghost predicate Proper<V>(inputs: seq<Range<V>>) {
    forall i :: 0 <= i < |inputs| ==> inputs[i].start <= inputs[i].end
  }

  function Build<V>(inputs: seq<Range<V>>): seq<Range<V>> {
    if inputs == [] then [] else Insert(Build(inputs[..|inputs| - 1]), inputs[|inputs| - 1])
  }

  /** The reference: scan the inputs, keeping each range disjoint from all kept before it. */
  ghost function Kept<V>(inputs: seq<Range<V>>): set<Range<V>> {
    if inputs == [] then {}
    else
      var before := Kept(inputs[..|inputs| - 1]);
      var r := inputs[|inputs| - 1];
      if Clashes(before, r) then before else before + {r}
  }

  /** After any sequence of inserts the map holds exactly the first-in-wins ranges, in order and
      pairwise disjoint. */
  lemma {:induction false} BuildIsFirstInWins<V>(inputs: seq<Range<V>>)
    requires Proper(inputs)
    ensures Ordered(Build(inputs))
    ensures Elements(Build(inputs)) == Kept(inputs)
  {
    if inputs != [] {
      var before, r := inputs[..|inputs| - 1], inputs[|inputs| - 1];
      BuildIsFirstInWins(before);
      InsertOrdered(Build(before), r);
      InsertKeeps(Build(before), r);
    }
  }

  /** The mutable map of ranges with its drop counter. */
  class RangeMap<V> {
    var ranges: seq<Range<V>>
    var dropped: nat

    ghost predicate Valid() reads this { Ordered(ranges) }

    constructor ()
      ensures Valid() && ranges == [] && dropped == 0
    {
      ranges, dropped := [], 0;
    }

    method Add(start: nat, end: nat, value: V)
      requires Valid() && start <= end
      modifies this
      ensures Valid()
      ensures ranges == Insert(old(ranges), Range(start, end, value))
      ensures dropped == old(dropped) + |old(ranges)| + 1 - |ranges|
    {
      InsertOrdered(ranges, Range(start, end, value));
      var n := StartsUpTo(ranges, start);
      if n > 0 && ranges[n - 1].end >= start {
        dropped := dropped + 1;
        return;
      }
      if n < |ranges| && ranges[n].start <= end {
        dropped := dropped + 1;
        return;
      }
      ranges := ranges[..n] + [Range(start, end, value)] + ranges[n..];
    }
  }

  // ---- Merging ----

  ghost predicate Mergeable<V>(a: Range<V>, b: Range<V>) {
    a.value == b.value && a.end + 1 == b.start
  }

  /** Fold `r` into the last range when they touch and carry the same value. */
  ghost function Absorb<V>(m: seq<Range<V>>, r: Range<V>): seq<Range<V>> {
    if m != [] && Mergeable(m[|m| - 1], r) then m[..|m| - 1] + [Range(m[|m| - 1].start, r.end, r.value)]
    else m + [r]
  }

  ghost function Merge<V>(rs: seq<Range<V>>): seq<Range<V>> {
    if rs == [] then [] else Absorb(Merge(rs[..|rs| - 1]), rs[|rs| - 1])
  }

  /** The value of the range covering `key`, if any. */
  ghost function Owner<V>(rs: seq<Range<V>>, key: nat): Option<V> {
    if rs == [] then None
    else
      var r := rs[|rs| - 1];
      if r.start <= key <= r.end then Some(r.value) else Owner(rs[..|rs| - 1], key)
  }

  ghost predicate NoneMergeable<V>(rs: seq<Range<V>>) {
    forall i :: 0 <= i < |rs| - 1 ==> !Mergeable(rs[i], rs[i + 1])
  }

  lemma AbsorbOrdered<V>(m: seq<Range<V>>, r: Range<V>)
    requires Ordered(m) && r.start <= r.end
    requires m != [] ==> m[|m| - 1].end < r.start
    ensures Ordered(Absorb(m, r))
  {
    var t := Absorb(m, r);
    forall i, j | 0 <= i < j < |t| ensures t[i].end < t[j].start {
      assert i < |m| - 1 ==> m[i].end < m[|m| - 1].start;
    }
  }

  lemma {:induction false} MergeShape<V>(rs: seq<Range<V>>)
    requires Ordered(rs)
    ensures Ordered(Merge(rs)) && |Merge(rs)| <= |rs|
    ensures rs != [] ==> Merge(rs) != [] && Merge(rs)[|Merge(rs)| - 1].end == rs[|rs| - 1].end
  {
    if rs != [] {
      MergeShape(rs[..|rs| - 1]);
      AbsorbOrdered(Merge(rs[..|rs| - 1]), rs[|rs| - 1]);
    }
  }

  lemma {:induction false} MergeLeavesNone<V>(rs: seq<Range<V>>)
    ensures NoneMergeable(Merge(rs))
  {
    if rs != [] {
      var m, r := Merge(rs[..|rs| - 1]), rs[|rs| - 1];
      MergeLeavesNone(rs[..|rs| - 1]);
      forall i | 0 <= i < |Merge(rs)| - 1 ensures !Mergeable(Merge(rs)[i], Merge(rs)[i + 1]) {
        if i + 1 < |m| { assert !Mergeable(m[i], m[i + 1]); }
      }
    }
  }

  lemma AbsorbKeepsOwner<V>(m: seq<Range<V>>, r: Range<V>, key: nat)
    requires m != [] ==> m[|m| - 1].start <= m[|m| - 1].end
    requires r.start <= r.end
    ensures Owner(Absorb(m, r), key) == if r.start <= key <= r.end then Some(r.value) else Owner(m, key)
  {
    var t := Absorb(m, r);
    if m != [] && Mergeable(m[|m| - 1], r) {
      assert t[..|t| - 1] == m[..|m| - 1];
    } else {
      assert t[..|t| - 1] == m;
    }
  }

  /** Merging changes no key's owner. */
  lemma {:induction false} MergeKeepsOwner<V>(rs: seq<Range<V>>, key: nat)
    requires Ordered(rs)
    ensures Owner(Merge(rs), key) == Owner(rs, key)
  {
    if rs != [] {
      var before, r := rs[..|rs| - 1], rs[|rs| - 1];
      MergeKeepsOwner(before, key);
      MergeShape(before);
      AbsorbKeepsOwner(Merge(before), r, key);
    }
  }

  // ---- Emitting the start-table ----

  /** The rows of one merged range: its own, and a sentinel unless the next range touches it or the
      key space ends. */
  ghost function Flush<V>(p: Range<V>, next: Option<nat>, keyMax: nat, unknown: V): seq<Record<V>> {
    [Record(p.start, p.value)] +
    (if next != Some(p.end + 1) && p.end < keyMax then [Record(p.end + 1, unknown)] else [])
  }

  ghost function Emit<V>(m: seq<Range<V>>, next: Option<nat>, keyMax: nat, unknown: V): seq<Record<V>> {
    if m == [] then []
    else
      var p := m[|m| - 1];
      Emit(m[..|m| - 1], Some(p.start), keyMax, unknown) + Flush(p, next, keyMax, unknown)
  }

  /** The start-table of a map of ranges. */
  ghost function Table<V>(rs: seq<Range<V>>, keyMax: nat, unknown: V): seq<Record<V>> {
    Emit(Merge(rs), None, keyMax, unknown)
  }

  /** What a table says about `key`: the value of the last row at or below it. */
  ghost function Probe<V>(t: seq<Record<V>>, key: nat, unknown: V): Option<V> {
    if t == [] then None
    else
      var r := t[|t| - 1];
      if r.key <= key then (if r.value == unknown then None else Some(r.value))
      else Probe(t[..|t| - 1], key, unknown)
  }

  ghost predicate Carries<V>(rs: seq<Range<V>>, keyMax: nat, unknown: V) {
    forall i :: 0 <= i < |rs| ==> rs[i].value != unknown && rs[i].end <= keyMax
  }

  lemma AbsorbCarries<V>(m: seq<Range<V>>, r: Range<V>, keyMax: nat, unknown: V)
    requires Carries(m, keyMax, unknown) && r.value != unknown && r.end <= keyMax
    ensures Carries(Absorb(m, r), keyMax, unknown)
  {}

  lemma {:induction false} MergeCarries<V>(rs: seq<Range<V>>, keyMax: nat, unknown: V)
    requires Carries(rs, keyMax, unknown)
    ensures Carries(Merge(rs), keyMax, unknown)
  {
    if rs != [] {
      MergeCarries(rs[..|rs| - 1], keyMax, unknown);
      AbsorbCarries(Merge(rs[..|rs| - 1]), rs[|rs| - 1], keyMax, unknown);
    }
  }

  lemma FitsBefore<V>(rs: seq<Range<V>>, next: Option<nat>, keyMax: nat, unknown: V)
    requires Fits(rs, next, keyMax, unknown) && rs != []
    ensures Fits(rs[..|rs| - 1], Some(rs[|rs| - 1].start), keyMax, unknown)
  {
    assert rs[|rs| - 1].start <= rs[|rs| - 1].end <= keyMax;
  }

  /** The ranges fit the key space and none carries the sentinel value. */
  ghost predicate Fits<V>(rs: seq<Range<V>>, next: Option<nat>, keyMax: nat, unknown: V) {
    && Ordered(rs)
    && Carries(rs, keyMax, unknown)
    && (next.Some? && rs != [] ==> rs[|rs| - 1].end < next.value <= keyMax)
  }

  ghost predicate Increasing<V>(t: seq<Record<V>>) {
    forall i, j :: 0 <= i < j < |t| ==> t[i].key < t[j].key
  }

  ghost predicate NoRepeats<V>(t: seq<Record<V>>) {
    forall i :: 0 <= i < |t| - 1 ==> t[i].value != t[i + 1].value
  }

  lemma {:induction false} ProbeConcat<V>(a: seq<Record<V>>, b: seq<Record<V>>, key: nat, unknown: V)
    requires forall i :: 0 <= i < |b| ==> b[i].key > key
    ensures Probe(a + b, key, unknown) == Probe(a, key, unknown)
  {
    if b == [] {
      assert a + b == a;
    } else {
      assert (a + b)[..|a + b| - 1] == a + b[..|b| - 1];
      ProbeConcat(a, b[..|b| - 1], key, unknown);
    }
  }

  lemma OwnerOutside<V>(rs: seq<Range<V>>, key: nat)
    requires Ordered(rs)
    requires rs != [] ==> rs[|rs| - 1].end < key
    ensures Owner(rs, key) == None
  {
    if rs != [] { OwnerOutside(rs[..|rs| - 1], key); }
  }

  /** The rows of the last range answer the keys from its start on. */
  lemma ProbeFlush<V>(head: seq<Record<V>>, p: Range<V>, next: Option<nat>, keyMax: nat, unknown: V, key: nat)
    requires p.value != unknown && p.start <= key <= keyMax && (next.Some? ==> key < next.value)
    ensures Probe(head + Flush(p, next, keyMax, unknown), key, unknown) == if key <= p.end then Some(p.value) else None
  {
    var tail := Flush(p, next, keyMax, unknown);
    if |tail| == 2 {
      assert (head + tail)[..|head + tail| - 1] == head + [tail[0]];
      assert (head + [tail[0]])[|head|] == tail[0];
    }
  }

  lemma {:induction false} EmitMeansOwner<V>(m: seq<Range<V>>, next: Option<nat>, keyMax: nat, unknown: V, key: nat)
    requires Fits(m, next, keyMax, unknown)
    requires key <= keyMax && (next.Some? ==> key < next.value)
    ensures Probe(Emit(m, next, keyMax, unknown), key, unknown) == Owner(m, key)
  {
    if m != [] {
      var before, p := m[..|m| - 1], m[|m| - 1];
      FitsBefore(m, next, keyMax, unknown);
      if key < p.start {
        EmitMeansOwner(before, Some(p.start), keyMax, unknown, key);
        ProbeConcat(Emit(before, Some(p.start), keyMax, unknown), Flush(p, next, keyMax, unknown), key, unknown);
      } else {
        OwnerOutside(before, key);
        ProbeFlush(Emit(before, Some(p.start), keyMax, unknown), p, next, keyMax, unknown, key);
      }
    }
  }

  lemma {:induction false} EmitShape<V>(m: seq<Range<V>>, next: Option<nat>, keyMax: nat, unknown: V)
    requires Fits(m, next, keyMax, unknown)
    ensures var t := Emit(m, next, keyMax, unknown);
            && Increasing(t)
            && (forall i :: 0 <= i < |t| ==> t[i].key <= keyMax)
            && (forall i :: 0 <= i < |t| && next.Some? ==> t[i].key < next.value)
            && (t == [] <==> m == [])
  {
    if m != [] {
      EmitShape(m[..|m| - 1], Some(m[|m| - 1].start), keyMax, unknown);
    }
  }

  ghost function LastValue<V>(p: Range<V>, next: Option<nat>, keyMax: nat, unknown: V): V {
    if next != Some(p.end + 1) && p.end < keyMax then unknown else p.value
  }

  lemma NoRepeatsConcat<V>(a: seq<Record<V>>, b: seq<Record<V>>)
    requires NoRepeats(a) && NoRepeats(b)
    requires a != [] && b != [] ==> a[|a| - 1].value != b[0].value
    ensures NoRepeats(a + b)
  {
    var t := a + b;
    forall i | 0 <= i < |t| - 1 ensures t[i].value != t[i + 1].value {
      assert i >= |a| ==> t[i] == b[i - |a|] && t[i + 1] == b[i - |a| + 1];
    }
  }

  lemma FlushShape<V>(p: Range<V>, next: Option<nat>, keyMax: nat, unknown: V)
    requires p.value != unknown
    ensures var f := Flush(p, next, keyMax, unknown);
            NoRepeats(f) && f != [] && f[0].value == p.value && f[|f| - 1].value == LastValue(p, next, keyMax, unknown)
  {}

  lemma NeighboursDiffer<V>(q: Range<V>, p: Range<V>, keyMax: nat, unknown: V)
    requires !Mergeable(q, p) && p.value != unknown
    ensures LastValue(q, Some(p.start), keyMax, unknown) == p.value ==> q.end >= keyMax
  {}

  lemma {:induction false} EmitNoRepeats<V>(m: seq<Range<V>>, next: Option<nat>, keyMax: nat, unknown: V)
    requires Fits(m, next, keyMax, unknown) && NoneMergeable(m)
    ensures var t := Emit(m, next, keyMax, unknown);
            && NoRepeats(t)
            && (m != [] ==> t != [] && t[|t| - 1].value == LastValue(m[|m| - 1], next, keyMax, unknown))
  {
    if m != [] {
      var before, p := m[..|m| - 1], m[|m| - 1];
      EmitNoRepeats(before, Some(p.start), keyMax, unknown);
      FlushShape(p, next, keyMax, unknown);
      if before != [] {
        var q := m[|m| - 2];
        assert !Mergeable(q, p) && q.end < p.start <= p.end <= keyMax;
        NeighboursDiffer(q, p, keyMax, unknown);
      }
      NoRepeatsConcat(Emit(before, Some(p.start), keyMax, unknown), Flush(p, next, keyMax, unknown));
    }
  }

  /** The compiled table answers every key: the value of the one kept range covering it, or unknown
      when there is none; its keys strictly increase and no two neighbours carry the same value. */
  lemma TableIsExact<V>(inputs: seq<Range<V>>, keyMax: nat, unknown: V, key: nat)
    requires Proper(inputs) && key <= keyMax
    requires forall i :: 0 <= i < |inputs| ==> inputs[i].value != unknown && inputs[i].end <= keyMax
    ensures var t := Table(Build(inputs), keyMax, unknown);
            && Increasing(t) && NoRepeats(t)
            && (forall k :: k in Kept(inputs) && k.start <= key <= k.end ==> Probe(t, key, unknown) == Some(k.value))
            && ((forall k :: k in Kept(inputs) ==> !(k.start <= key <= k.end)) ==> Probe(t, key, unknown) == None)
  {
    var rs := Build(inputs);
    BuildIsFirstInWins(inputs);
    KeptAreInputs(inputs);
    forall i | 0 <= i < |rs| ensures rs[i].value != unknown && rs[i].end <= keyMax {
      assert rs[i] in Elements(rs);
    }
    MergedFits(rs, keyMax, unknown);
    EmitMeansOwner(Merge(rs), None, keyMax, unknown, key);
    MergeKeepsOwner(rs, key);
    EmitShape(Merge(rs), None, keyMax, unknown);
    EmitNoRepeats(Merge(rs), None, keyMax, unknown);
    OwnerIsCover(rs, key);
  }

  lemma {:induction false} KeptAreInputs<V>(inputs: seq<Range<V>>)
    ensures forall k :: k in Kept(inputs) ==> k in inputs
  {
    if inputs != [] { KeptAreInputs(inputs[..|inputs| - 1]); }
  }

  lemma {:induction false} OwnerIsCover<V>(rs: seq<Range<V>>, key: nat)
    requires Ordered(rs)
    ensures forall k :: k in rs && k.start <= key <= k.end ==> Owner(rs, key) == Some(k.value)
    ensures Owner(rs, key).Some? ==> exists k :: k in rs && k.start <= key <= k.end
  {
    if rs != [] { OwnerIsCover(rs[..|rs| - 1], key); }
  }

  lemma MergedFits<V>(rs: seq<Range<V>>, keyMax: nat, unknown: V)
    requires Fits(rs, None, keyMax, unknown)
    ensures Fits(Merge(rs), None, keyMax, unknown) && NoneMergeable(Merge(rs))
  {
    MergeShape(rs);
    MergeLeavesNone(rs);
    MergeCarries(rs, keyMax, unknown);
  }

  // ---- The two generators ----

  const U128_MAX: nat := 0xFFFF_FFFF_FFFF_FFFF_FFFF_FFFF_FFFF_FFFF

  /** The rows the first generator writes for a range it is done with. */
  method FlushPending<V>(p: Range<V>, next: Option<nat>, keyMax: nat, unknown: V)
    returns (rows: seq<Record<V>>)
    requires p.end <= keyMax <= U128_MAX
    ensures rows == Flush(p, next, keyMax, unknown) && |rows| >= 1
  {
    rows := [Record(p.start, p.value)];
    var contiguous := if p.end == U128_MAX then next.None? else next.Some? && next.value == p.end + 1;
    if !contiguous && p.end < keyMax {
      rows := rows + [Record(p.end + 1, unknown)];
    }
  }

  /** After the first ranges were read into `m`: everything but the last of them is written. */
  ghost predicate HeldBack<V>(m: seq<Range<V>>, out: seq<Record<V>>, gaps: nat, keyMax: nat, unknown: V) {
    && m != []
    && out == Emit(m[..|m| - 1], Some(m[|m| - 1].start), keyMax, unknown)
    && gaps == |out| - (|m| - 1)
  }

  lemma HoldOn<V>(m: seq<Range<V>>, r: Range<V>, out: seq<Record<V>>, gaps: nat, keyMax: nat, unknown: V)
    requires HeldBack(m, out, gaps, keyMax, unknown) && Mergeable(m[|m| - 1], r)
    ensures HeldBack(Absorb(m, r), out, gaps, keyMax, unknown)
    ensures |Absorb(m, r)| == |m| && Absorb(m, r)[|m| - 1] == Range(m[|m| - 1].start, r.end, r.value)
  {
    assert Absorb(m, r)[..|m| - 1] == m[..|m| - 1];
  }

  lemma LetGo<V>(m: seq<Range<V>>, r: Range<V>, out: seq<Record<V>>, gaps: nat, rows: seq<Record<V>>, keyMax: nat, unknown: V)
    requires HeldBack(m, out, gaps, keyMax, unknown) && !Mergeable(m[|m| - 1], r)
    requires rows == Flush(m[|m| - 1], Some(r.start), keyMax, unknown)
    ensures HeldBack(Absorb(m, r), out + rows, gaps + |rows| - 1, keyMax, unknown)
    ensures |Absorb(m, r)| == |m| + 1 && Absorb(m, r)[|m|] == r
  {
    assert Absorb(m, r)[..|m|] == m;
  }

  lemma LetLastGo<V>(m: seq<Range<V>>, out: seq<Record<V>>, gaps: nat, rows: seq<Record<V>>, keyMax: nat, unknown: V)
    requires HeldBack(m, out, gaps, keyMax, unknown)
    requires rows == Flush(m[|m| - 1], None, keyMax, unknown)
    ensures out + rows == Emit(m, None, keyMax, unknown) && gaps + |rows| - 1 == |out + rows| - |m|
  {}

  /** The loop body once a range is pending: extend it, or write it and hold the next. */
  method TakeNext<V(==)>(p: Range<V>, r: Range<V>, out: seq<Record<V>>, gaps: nat, keyMax: nat, unknown: V, ghost m: seq<Range<V>>)
    returns (held: Range<V>, written: seq<Record<V>>, merged: nat, gapsNow: nat)
    requires p.end <= keyMax <= U128_MAX
    requires HeldBack(m, out, gaps, keyMax, unknown) && p == m[|m| - 1]
    ensures HeldBack(Absorb(m, r), written, gapsNow, keyMax, unknown)
    ensures held == Absorb(m, r)[|Absorb(m, r)| - 1] && held.end == r.end
    ensures merged == |m| + 1 - |Absorb(m, r)|
  {
    if p.end + 1 == r.start && p.value == r.value {
      HoldOn(m, r, out, gaps, keyMax, unknown);
      held, written, merged, gapsNow := Range(p.start, r.end, r.value), out, 1, gaps;
    } else {
      var rows := FlushPending(p, Some(r.start), keyMax, unknown);
      LetGo(m, r, out, gaps, rows, keyMax, unknown);
      held, written, merged, gapsNow := r, out + rows, 0, gaps + |rows| - 1;
    }
  }

  lemma HoldFirst<V>(rs: seq<Range<V>>, keyMax: nat, unknown: V)
    requires rs != []
    ensures Merge(rs[..1]) == [rs[0]] && HeldBack([rs[0]], [], 0, keyMax, unknown)
  {
    var first := [rs[0]];
    assert rs[..1] == first;
    assert first[..0] == [] && Merge(first) == Absorb(Merge(first[..0]), rs[0]);
  }

  /** After `i` ranges: they are merged into `m`, all but the last written, and the counts are right. */
  ghost predicate Midway<V>(rs: seq<Range<V>>, i: nat, m: seq<Range<V>>, pending: Range<V>, out: seq<Record<V>>,
                            merged: nat, gaps: nat, keyMax: nat, unknown: V) {
    && i <= |rs| && m == Merge(rs[..i]) && merged == i - |m|
    && HeldBack(m, out, gaps, keyMax, unknown) && pending == m[|m| - 1] && pending.end <= keyMax
  }

  ghost predicate EndsWithin<V>(rs: seq<Range<V>>, keyMax: nat) {
    forall i :: 0 <= i < |rs| ==> rs[i].end <= keyMax
  }

  /** One turn of the loop. */
  method TakeRange<V(==)>(rs: seq<Range<V>>, i: nat, pending: Range<V>, out: seq<Record<V>>, merged: nat, gaps: nat,
                          keyMax: nat, unknown: V, ghost m: seq<Range<V>>)
    returns (held: Range<V>, written: seq<Record<V>>, mergedNow: nat, gapsNow: nat)
    requires i < |rs| && EndsWithin(rs, keyMax) && keyMax <= U128_MAX
    requires Midway(rs, i, m, pending, out, merged, gaps, keyMax, unknown)
    ensures Midway(rs, i + 1, Absorb(m, rs[i]), held, written, mergedNow, gapsNow, keyMax, unknown)
  {
    MergeNext(rs, i);
    var more;
    held, written, more, gapsNow := TakeNext(pending, rs[i], out, gaps, keyMax, unknown, m);
    mergedNow := merged + more;
  }

  /** The last range written. */
  method Finish<V(==)>(rs: seq<Range<V>>, pending: Range<V>, out: seq<Record<V>>, merged: nat, gaps: nat,
                       keyMax: nat, unknown: V, ghost m: seq<Range<V>>)
    returns (written: seq<Record<V>>, gapsNow: nat)
    requires keyMax <= U128_MAX && Midway(rs, |rs|, m, pending, out, merged, gaps, keyMax, unknown)
    ensures written == Table(rs, keyMax, unknown)
    ensures merged == |rs| - |Merge(rs)| && gapsNow == |written| - |Merge(rs)|
  {
    assert rs[..|rs|] == rs;
    var rows := FlushPending(pending, None, keyMax, unknown);
    LetLastGo(m, out, gaps, rows, keyMax, unknown);
    written, gapsNow := out + rows, gaps + |rows| - 1;
  }

  /** One pass, holding back one pending range. Returns the table with the merge and gap counts. */
  method EmitOnePass<V(==)>(rs: seq<Range<V>>, keyMax: nat, unknown: V)
    returns (out: seq<Record<V>>, merged: nat, gaps: nat)
    requires keyMax <= U128_MAX && EndsWithin(rs, keyMax)
    ensures out == Table(rs, keyMax, unknown)
    ensures merged == |rs| - |Merge(rs)| && gaps == |out| - |Merge(rs)|
  {
    out, merged, gaps := [], 0, 0;
    if rs == [] { return; }
    var pending := rs[0];
    ghost var m := [rs[0]];
    HoldFirst(rs, keyMax, unknown);
    for i := 1 to |rs|
      invariant Midway(rs, i, m, pending, out, merged, gaps, keyMax, unknown)
    {
      pending, out, merged, gaps := TakeRange(rs, i, pending, out, merged, gaps, keyMax, unknown, m);
      m := Absorb(m, rs[i]);
    }
    out, gaps := Finish(rs, pending, out, merged, gaps, keyMax, unknown, m);
  }

  lemma AbsorbInPlace<V>(m: seq<Range<V>>, r: Range<V>)
    requires m != [] && Mergeable(m[|m| - 1], r)
    ensures m[|m| - 1 := m[|m| - 1].(end := r.end)] == Absorb(m, r)
  {}

  lemma MergeNext<V>(rs: seq<Range<V>>, i: nat)
    requires i < |rs|
    ensures Merge(rs[..i + 1]) == Absorb(Merge(rs[..i]), rs[i])
  {
    assert rs[..i + 1][..i] == rs[..i];
  }

  /** First pass: merge by extending the last range in place. */
  method MergeInPlace<V(==)>(rs: seq<Range<V>>) returns (merged: seq<Range<V>>)
    ensures merged == Merge(rs)
  {
    merged := [];
    for i := 0 to |rs|
      invariant merged == Merge(rs[..i])
    {
      var r := rs[i];
      MergeNext(rs, i);
      if merged != [] && merged[|merged| - 1].value == r.value && merged[|merged| - 1].end + 1 == r.start {
        AbsorbInPlace(merged, r);
        merged := merged[|merged| - 1 := merged[|merged| - 1].(end := r.end)];
      } else {
        merged := merged + [r];
      }
    }
    assert rs[..|rs|] == rs;
  }

  lemma EmitNext<V>(m: seq<Range<V>>, i: nat, next: Option<nat>, keyMax: nat, unknown: V)
    requires i < |m|
    ensures Emit(m[..i + 1], next, keyMax, unknown) ==
            Emit(m[..i], Some(m[i].start), keyMax, unknown) + Flush(m[i], next, keyMax, unknown)
  {
    assert m[..i + 1][..i] == m[..i];
  }

  /** Where range `i` starts, if there is one. */
  function StartOf<V>(m: seq<Range<V>>, i: nat): Option<nat> { if i < |m| then Some(m[i].start) else None }

  /** The first `i` ranges are written. */
  ghost predicate WrittenTo<V>(m: seq<Range<V>>, i: nat, out: seq<Record<V>>, gaps: nat, keyMax: nat, unknown: V) {
    i <= |m| && out == Emit(m[..i], StartOf(m, i), keyMax, unknown) && gaps == |out| - i
  }

  lemma WrittenMore<V>(m: seq<Range<V>>, i: nat, out: seq<Record<V>>, gaps: nat, rows: seq<Record<V>>, keyMax: nat, unknown: V)
    requires i < |m| && WrittenTo(m, i, out, gaps, keyMax, unknown) && rows == Flush(m[i], StartOf(m, i + 1), keyMax, unknown)
    ensures WrittenTo(m, i + 1, out + rows, gaps + |rows| - 1, keyMax, unknown)
  {
    EmitNext(m, i, StartOf(m, i + 1), keyMax, unknown);
  }

  /** The rows of one range, looking one range ahead. */
  method WriteRange<V(==)>(m: seq<Range<V>>, i: nat, out: seq<Record<V>>, gaps: nat, keyMax: nat, unknown: V)
    returns (written: seq<Record<V>>, gapsNow: nat)
    requires i < |m| && WrittenTo(m, i, out, gaps, keyMax, unknown)
    ensures WrittenTo(m, i + 1, written, gapsNow, keyMax, unknown)
  {
    var r := m[i];
    var rows := [Record(r.start, r.value)];
    gapsNow := gaps;
    var contiguousNext := i + 1 < |m| && m[i + 1].start == r.end + 1;
    if !contiguousNext && r.end < keyMax {
      rows := rows + [Record(r.end + 1, unknown)];
      gapsNow := gapsNow + 1;
    }
    WrittenMore(m, i, out, gaps, rows, keyMax, unknown);
    written := out + rows;
  }

  /** Two passes: merge, then write the rows looking one range ahead. */
  method EmitTwoPass<V(==)>(rs: seq<Range<V>>, keyMax: nat, unknown: V)
    returns (out: seq<Record<V>>, ranges: nat, gaps: nat)
    ensures out == Table(rs, keyMax, unknown)
    ensures ranges == |Merge(rs)| && gaps == |out| - ranges
  {
    var merged := MergeInPlace(rs);
    out, gaps := [], 0;
    for i := 0 to |merged|
      invariant WrittenTo(merged, i, out, gaps, keyMax, unknown)
    {
      out, gaps := WriteRange(merged, i, out, gaps, keyMax, unknown);
    }
    assert merged[..|merged|] == merged;
    ranges := |merged|;
  }

  // ---- The bytes, and the search that reads them ----

  /** One row as bytes: the key big-endian, then the payload. */
  function Row<V>(r: Record<V>, keyLen: nat, pay: V -> seq<byte>): seq<byte> {
    BE(r.key, keyLen) + pay(r.value)
  }

  function Serialize<V>(t: seq<Record<V>>, keyLen: nat, pay: V -> seq<byte>): seq<byte> {
    if t == [] then [] else Row(t[0], keyLen, pay) + Serialize(t[1..], keyLen, pay)
  }

  /** The offset of row `k`, `k * rec` built up row by row. */
  ghost function At(k: nat, rec: nat): nat {
    if k == 0 then 0 else At(k - 1, rec) + rec
  }

  lemma {:induction false} AtIsProduct(k: nat, rec: nat)
    ensures At(k, rec) == k * rec
  {
    if k > 0 { AtIsProduct(k - 1, rec); }
  }

  lemma {:induction false} AtMonotone(i: nat, j: nat, rec: nat)
    requires i <= j
    ensures At(i, rec) <= At(j, rec)
  {
    if i < j { AtMonotone(i, j - 1, rec); }
  }

  /** How many whole rows `bytes` bytes hold, `bytes / rec` counted row by row. */
  ghost function Rows(bytes: nat, rec: nat): nat
    requires rec > 0
  {
    if bytes < rec then 0 else 1 + Rows(bytes - rec, rec)
  }

  lemma {:induction false} RowsFit(bytes: nat, rec: nat)
    requires rec > 0
    ensures Rows(bytes, rec) == bytes / rec && At(Rows(bytes, rec), rec) <= bytes
    decreases bytes
  {
    if bytes >= rec {
      RowsFit(bytes - rec, rec);
      var q := (bytes - rec) / rec;
      AtIsProduct(q, rec);
      AtIsProduct(q + 1, rec);
      assert bytes == (q + 1) * rec + (bytes - rec) % rec;
      QuotientUnique(bytes, rec, q + 1, (bytes - rec) % rec);
    }
  }

  lemma MulLe(a: nat, b: nat, d: nat)
    requires a <= b
    ensures a * d <= b * d
  {}

  lemma TwoQuotients(d: nat, q: nat, r: nat, p: nat, s: nat)
    requires r < d && s < d && q * d + r == p * d + s
    ensures q == p
  {
    if q < p {
      MulLe(q + 1, p, d);
    } else if p < q {
      MulLe(p + 1, q, d);
    }
  }

  lemma QuotientUnique(n: nat, d: nat, q: nat, r: nat)
    requires d > 0 && r < d && n == q * d + r
    ensures n / d == q
  {
    TwoQuotients(d, q, r, n / d, n % d);
  }

  /** Row `k` exists and its key is at or below `key`. */
  ghost predicate Below(table: seq<byte>, rec: nat, key: seq<byte>, k: nat) {
    var at := At(k, rec);
    && at + rec <= |table| && |key| <= rec
    && SliceLe(table[at..at + |key|], key)
  }

  /** The payload of row `k`. */
  ghost function Payload(table: seq<byte>, rec: nat, keyLen: nat, k: nat): seq<byte> {
    var at := At(k, rec);
    if keyLen <= rec && at + rec <= |table| then table[at + keyLen..at + rec] else []
  }

  /** The payload of the last of the first `n` rows whose key is at or below `key`. */
  ghost function LastAtOrBelow(table: seq<byte>, rec: nat, key: seq<byte>, n: nat): Option<seq<byte>> {
    if n == 0 then None
    else if Below(table, rec, key, n - 1) then Some(Payload(table, rec, |key|, n - 1))
    else LastAtOrBelow(table, rec, key, n - 1)
  }

  /** Rows whose key is at or below `key` come before all others. */
  ghost predicate Partitioned(table: seq<byte>, rec: nat, key: seq<byte>, n: nat) {
    forall i: nat, j: nat :: i < j < n && Below(table, rec, key, j) ==> Below(table, rec, key, i)
  }

  lemma {:induction false} SkipAbove(table: seq<byte>, rec: nat, key: seq<byte>, lo: nat, n: nat)
    requires lo <= n && forall k: nat :: lo <= k < n ==> !Below(table, rec, key, k)
    ensures LastAtOrBelow(table, rec, key, n) == LastAtOrBelow(table, rec, key, lo)
  {
    if lo < n { SkipAbove(table, rec, key, lo, n - 1); }
  }

  lemma RowFits(table: seq<byte>, rec: nat, k: nat)
    requires rec > 0 && k < Rows(|table|, rec)
    ensures At(k, rec) == k * rec && At(k, rec) + rec <= |table|
  {
    RowsFit(|table|, rec);
    AtMonotone(k + 1, Rows(|table|, rec), rec);
    AtIsProduct(k, rec);
  }

  /** The comparison the search makes at row `mid`. */
  method KeyAtOrBelow(table: seq<byte>, rec: nat, key: seq<byte>, mid: nat) returns (b: bool)
    requires 0 < rec && |key| <= rec && mid < Rows(|table|, rec)
    ensures b <==> Below(table, rec, key, mid)
  {
    RowFits(table, rec, mid);
    b := SliceLe(table[mid * rec..mid * rec + |key|], key);
  }

  /** The payload slice of row `k`. */
  method ReadPayload(table: seq<byte>, rec: nat, keyLen: nat, k: nat) returns (p: seq<byte>)
    requires 0 < rec && keyLen <= rec && k < Rows(|table|, rec)
    ensures p == Payload(table, rec, keyLen, k)
  {
    RowFits(table, rec, k);
    p := table[k * rec + keyLen..k * rec + rec];
  }

  method RowCount(table: seq<byte>, rec: nat) returns (n: nat)
    requires 0 < rec
    ensures n == Rows(|table|, rec)
  {
    RowsFit(|table|, rec);
    n := |table| / rec;
  }

  /** The binary search over fixed-size rows. */
  method Lookup(table: seq<byte>, rec: nat, key: seq<byte>) returns (r: Option<seq<byte>>)
    requires 0 < rec && |key| <= rec
    requires Partitioned(table, rec, key, Rows(|table|, rec))
    ensures r == LastAtOrBelow(table, rec, key, Rows(|table|, rec))
  {
    var n := RowCount(table, rec);
    var lo, hi := 0, n;
    while lo < hi
      invariant 0 <= lo <= hi <= n
      invariant forall k: nat :: k < lo ==> Below(table, rec, key, k)
      invariant forall k: nat :: hi <= k < n ==> !Below(table, rec, key, k)
    {
      var mid := lo + (hi - lo) / 2;
      var le := KeyAtOrBelow(table, rec, key, mid);
      if le { lo := mid + 1; } else { hi := mid; }
    }
    SkipAbove(table, rec, key, lo, n);
    if lo == 0 { return None; }
    var p := ReadPayload(table, rec, |key|, lo - 1);
    r := Some(p);
  }

  lemma {:induction false} SerializeRows<V>(t: seq<Record<V>>, keyLen: nat, pay: V -> seq<byte>, payLen: nat)
    requires payLen > 0 && forall v :: |pay(v)| == payLen
    ensures Rows(|Serialize(t, keyLen, pay)|, keyLen + payLen) == |t|
  {
    if t != [] { SerializeRows(t[1..], keyLen, pay, payLen); }
  }

  // ---- From inserted ranges to answered keys, through the bytes ----

  /** Row `k` of `b` is the row of `r`: its key readable as a number, its payload in place. */
  ghost predicate RowHeld<V>(b: seq<byte>, rec: nat, keyLen: nat, k: nat, r: Record<V>, pay: V -> seq<byte>) {
    var at := At(k, rec);
    && keyLen <= rec && at + rec <= |b|
    && FromBE(b[at..at + keyLen]) == r.key && b[at + keyLen..at + rec] == pay(r.value)
  }

  ghost predicate Holds<V>(b: seq<byte>, rec: nat, keyLen: nat, t: seq<Record<V>>, pay: V -> seq<byte>) {
    forall k: nat :: k < |t| ==> RowHeld(b, rec, keyLen, k, t[k], pay)
  }

  lemma FirstRowHeld<V>(b: seq<byte>, rest: seq<byte>, rec: nat, keyLen: nat, r: Record<V>, pay: V -> seq<byte>)
    requires b == Row(r, keyLen, pay) + rest && rec == keyLen + |pay(r.value)| && r.key < Pow256(keyLen)
    ensures RowHeld(b, rec, keyLen, 0, r, pay)
  {
    FromBEOfBE(r.key, keyLen);
    assert b[..keyLen] == BE(r.key, keyLen);
    assert b[keyLen..rec] == pay(r.value);
  }

  lemma NextRowHeld<V>(head: seq<byte>, rest: seq<byte>, rec: nat, keyLen: nat, k: nat, r: Record<V>, pay: V -> seq<byte>)
    requires |head| == rec && RowHeld(rest, rec, keyLen, k, r, pay)
    ensures RowHeld(head + rest, rec, keyLen, k + 1, r, pay)
  {
    RowMoves(head, rest, At(k, rec), rec, keyLen);
    assert At(k + 1, rec) == At(k, rec) + rec;
  }

  lemma RowMoves(head: seq<byte>, rest: seq<byte>, at: nat, rec: nat, keyLen: nat)
    requires |head| == rec && keyLen <= rec && at + rec <= |rest|
    ensures (head + rest)[at + rec..at + rec + keyLen] == rest[at..at + keyLen]
    ensures (head + rest)[at + rec + keyLen..at + rec + rec] == rest[at + keyLen..at + rec]
  {
    AfterHead(head, rest, at, at + keyLen);
    AfterHead(head, rest, at + keyLen, at + rec);
  }

  ghost predicate KeysFit<V>(t: seq<Record<V>>, keyLen: nat) {
    forall i :: 0 <= i < |t| ==> t[i].key < Pow256(keyLen)
  }

  lemma KeysFitTail<V>(t: seq<Record<V>>, keyLen: nat)
    requires KeysFit(t, keyLen) && t != []
    ensures t[0].key < Pow256(keyLen) && KeysFit(t[1..], keyLen)
  {}

  lemma {:induction false} SerializedHolds<V>(t: seq<Record<V>>, keyLen: nat, pay: V -> seq<byte>, payLen: nat)
    requires (forall v :: |pay(v)| == payLen) && KeysFit(t, keyLen)
    ensures Holds(Serialize(t, keyLen, pay), keyLen + payLen, keyLen, t, pay)
  {
    if t != [] {
      var head, rest := Row(t[0], keyLen, pay), Serialize(t[1..], keyLen, pay);
      KeysFitTail(t, keyLen);
      SerializedHolds(t[1..], keyLen, pay, payLen);
      FirstRowHeld(head + rest, rest, keyLen + payLen, keyLen, t[0], pay);
      ConsHolds(head, rest, keyLen + payLen, keyLen, t, pay);
    }
  }

  lemma ConsHolds<V>(head: seq<byte>, rest: seq<byte>, rec: nat, keyLen: nat, t: seq<Record<V>>, pay: V -> seq<byte>)
    requires t != [] && |head| == rec
    requires RowHeld(head + rest, rec, keyLen, 0, t[0], pay) && Holds(rest, rec, keyLen, t[1..], pay)
    ensures Holds(head + rest, rec, keyLen, t, pay)
  {
    forall k: nat | k < |t| ensures RowHeld(head + rest, rec, keyLen, k, t[k], pay) {
      if k > 0 { NextRowHeld(head, rest, rec, keyLen, k - 1, t[1..][k - 1], pay); }
    }
  }

  /** The bytes `b` show the table `t` to a search for `kb`, the bytes of `key`. */
  ghost predicate Shows<V>(b: seq<byte>, rec: nat, kb: seq<byte>, t: seq<Record<V>>, pay: V -> seq<byte>, key: nat) {
    forall k: nat :: k < |t| ==>
      && (Below(b, rec, kb, k) <==> t[k].key <= key)
      && Payload(b, rec, |kb|, k) == pay(t[k].value)
  }

  lemma HeldIsShown<V>(b: seq<byte>, rec: nat, kb: seq<byte>, t: seq<Record<V>>, pay: V -> seq<byte>)
    requires Holds(b, rec, |kb|, t, pay)
    ensures Shows(b, rec, kb, t, pay, FromBE(kb))
  {
    forall k: nat | k < |t|
      ensures (Below(b, rec, kb, k) <==> t[k].key <= FromBE(kb)) && Payload(b, rec, |kb|, k) == pay(t[k].value)
    {
      assert RowHeld(b, rec, |kb|, k, t[k], pay);
      SliceLeIsNumeric(b[At(k, rec)..At(k, rec) + |kb|], kb);
    }
  }

  lemma ShownIsPartitioned<V>(b: seq<byte>, rec: nat, kb: seq<byte>, t: seq<Record<V>>, pay: V -> seq<byte>, key: nat)
    requires Shows(b, rec, kb, t, pay, key) && Increasing(t)
    ensures Partitioned(b, rec, kb, |t|)
  {}

  /** A value as its reader sees it: the sentinel payload reads as nothing. */
  ghost function Read(r: Option<seq<byte>>, sentinel: seq<byte>): Option<seq<byte>> {
    if r.Some? && r.value == sentinel then None else r
  }

  ghost function Paid<V>(p: Option<V>, pay: V -> seq<byte>): Option<seq<byte>> {
    if p.None? then None else Some(pay(p.value))
  }

  /** Reading the bytes is probing the table. */
  lemma {:induction false} ScanIsProbe<V>(b: seq<byte>, rec: nat, kb: seq<byte>, t: seq<Record<V>>, n: nat,
                                          pay: V -> seq<byte>, key: nat, unknown: V)
    requires Shows(b, rec, kb, t, pay, key) && n <= |t|
    requires OnlySentinels(t, pay, unknown)
    ensures Read(LastAtOrBelow(b, rec, kb, n), pay(unknown)) == Paid(Probe(t[..n], key, unknown), pay)
  {
    if n > 0 {
      assert t[..n][..n - 1] == t[..n - 1];
      ScanIsProbe(b, rec, kb, t, n - 1, pay, key, unknown);
    }
  }

  ghost predicate OnlySentinels<V>(t: seq<Record<V>>, pay: V -> seq<byte>, unknown: V) {
    forall i :: 0 <= i < |t| && pay(t[i].value) == pay(unknown) ==> t[i].value == unknown
  }

  /** A search of bytes that hold a table ends where probing the table ends. */
  lemma SearchIsProbe<V>(b: seq<byte>, rec: nat, kb: seq<byte>, t: seq<Record<V>>, pay: V -> seq<byte>, unknown: V)
    requires Holds(b, rec, |kb|, t, pay) && Increasing(t)
    requires OnlySentinels(t, pay, unknown)
    ensures Partitioned(b, rec, kb, |t|)
    ensures Read(LastAtOrBelow(b, rec, kb, |t|), pay(unknown)) == Paid(Probe(t, FromBE(kb), unknown), pay)
  {
    HeldIsShown(b, rec, kb, t, pay);
    ShownIsPartitioned(b, rec, kb, t, pay, FromBE(kb));
    ScanIsProbe(b, rec, kb, t, |t|, pay, FromBE(kb), unknown);
    assert t[..|t|] == t;
  }

  /** The inputs of a generator: proper ranges inside the key space, none carrying the sentinel. */
  ghost predicate Admissible<V>(inputs: seq<Range<V>>, keyMax: nat, unknown: V, pay: V -> seq<byte>) {
    forall i :: 0 <= i < |inputs| ==>
      && inputs[i].start <= inputs[i].end <= keyMax
      && inputs[i].value != unknown && pay(inputs[i].value) != pay(unknown)
  }

  /** The bytes a generator writes for `inputs`. */
  ghost function Compiled<V>(inputs: seq<Range<V>>, keyMax: nat, unknown: V, keyLen: nat, pay: V -> seq<byte>): seq<byte> {
    Serialize(Table(Build(inputs), keyMax, unknown), keyLen, pay)
  }

  /** What a search of the compiled bytes answers, the sentinel read as nothing. */
  ghost function Answer(b: seq<byte>, rec: nat, kb: seq<byte>, sentinel: seq<byte>): Option<seq<byte>>
    requires rec > 0
  {
    Read(LastAtOrBelow(b, rec, kb, Rows(|b|, rec)), sentinel)
  }

  /** The answer is the payload of the one kept range covering the key, or nothing when none does. */
  ghost predicate AnswersCover<V>(inputs: seq<Range<V>>, key: nat, pay: V -> seq<byte>, answer: Option<seq<byte>>) {
    && (forall k :: k in Kept(inputs) && k.start <= key <= k.end ==> answer == Some(pay(k.value)))
    && ((forall k :: k in Kept(inputs) ==> !(k.start <= key <= k.end)) ==> answer == None)
  }

  /** The bytes are fit for the search, and it answers exactly. */
  ghost predicate SearchExact<V>(inputs: seq<Range<V>>, b: seq<byte>, rec: nat, kb: seq<byte>, pay: V -> seq<byte>, unknown: V)
    requires rec > 0
  {
    Partitioned(b, rec, kb, Rows(|b|, rec)) && AnswersCover(inputs, FromBE(kb), pay, Answer(b, rec, kb, pay(unknown)))
  }

  /** Only sentinel rows carry the sentinel payload. */
  lemma TableSentinels<V>(inputs: seq<Range<V>>, keyMax: nat, unknown: V, pay: V -> seq<byte>)
    requires Admissible(inputs, keyMax, unknown, pay)
    ensures OnlySentinels(Table(Build(inputs), keyMax, unknown), pay, unknown)
  {
    var t := Table(Build(inputs), keyMax, unknown);
    TableValues(inputs, keyMax, unknown);
    forall i | 0 <= i < |t| && pay(t[i].value) == pay(unknown) ensures t[i].value == unknown {
      assert t[i] in t;
    }
  }

  /** The bytes store the table for a search. */
  ghost predicate Stored<V>(b: seq<byte>, rec: nat, keyLen: nat, t: seq<Record<V>>, pay: V -> seq<byte>) {
    rec > 0 && Rows(|b|, rec) == |t| && Holds(b, rec, keyLen, t, pay)
  }

  /** Searching them is probing the table. */
  ghost predicate SearchProbes<V>(b: seq<byte>, rec: nat, kb: seq<byte>, t: seq<Record<V>>, pay: V -> seq<byte>, unknown: V)
    requires rec > 0
  {
    && Partitioned(b, rec, kb, Rows(|b|, rec))
    && Answer(b, rec, kb, pay(unknown)) == Paid(Probe(t, FromBE(kb), unknown), pay)
  }

  lemma StoredSearch<V>(b: seq<byte>, rec: nat, kb: seq<byte>, t: seq<Record<V>>, pay: V -> seq<byte>, unknown: V)
    requires Stored(b, rec, |kb|, t, pay) && Increasing(t) && OnlySentinels(t, pay, unknown)
    ensures SearchProbes(b, rec, kb, t, pay, unknown)
  {
    SearchIsProbe(b, rec, kb, t, pay, unknown);
  }

  lemma SerializedStored<V>(t: seq<Record<V>>, keyLen: nat, pay: V -> seq<byte>, payLen: nat)
    requires payLen > 0 && (forall v :: |pay(v)| == payLen) && KeysFit(t, keyLen)
    ensures Stored(Serialize(t, keyLen, pay), keyLen + payLen, keyLen, t, pay)
  {
    SerializedHolds(t, keyLen, pay, payLen);
    SerializeRows(t, keyLen, pay, payLen);
  }

  /** The key is of the key space, and its width holds the whole space. */
  ghost predicate KeyFits(kb: seq<byte>, keyMax: nat) { FromBE(kb) <= keyMax < Pow256(|kb|) }

  /** The bytes hold a table fit for the search, which the inputs determine. */
  ghost predicate Fitted<V>(t: seq<Record<V>>, b: seq<byte>, rec: nat, keyLen: nat, pay: V -> seq<byte>, unknown: V) {
    Stored(b, rec, keyLen, t, pay) && Increasing(t) && OnlySentinels(t, pay, unknown)
  }

  lemma CompiledFits<V>(inputs: seq<Range<V>>, keyMax: nat, unknown: V, keyLen: nat, pay: V -> seq<byte>, payLen: nat)
    requires Admissible(inputs, keyMax, unknown, pay) && keyMax < Pow256(keyLen)
    requires payLen > 0 && forall v :: |pay(v)| == payLen
    ensures Fitted(Table(Build(inputs), keyMax, unknown), Compiled(inputs, keyMax, unknown, keyLen, pay), keyLen + payLen, keyLen, pay, unknown)
  {
    TableKeysFit(inputs, keyMax, unknown);
    TableSentinels(inputs, keyMax, unknown, pay);
    SerializedStored(Table(Build(inputs), keyMax, unknown), keyLen, pay, payLen);
  }

  /** The probe of a compiled table, as payloads. */
  lemma ProbeCovers<V>(inputs: seq<Range<V>>, keyMax: nat, unknown: V, pay: V -> seq<byte>, key: nat)
    requires Admissible(inputs, keyMax, unknown, pay) && key <= keyMax
    ensures AnswersCover(inputs, key, pay, Paid(Probe(Table(Build(inputs), keyMax, unknown), key, unknown), pay))
  {
    TableIsExact(inputs, keyMax, unknown, key);
  }

  lemma TableSearched<V>(inputs: seq<Range<V>>, t: seq<Record<V>>, b: seq<byte>, rec: nat, kb: seq<byte>, pay: V -> seq<byte>, unknown: V)
    requires Fitted(t, b, rec, |kb|, pay, unknown)
    requires AnswersCover(inputs, FromBE(kb), pay, Paid(Probe(t, FromBE(kb), unknown), pay))
    ensures SearchExact(inputs, b, rec, kb, pay, unknown)
  {
    StoredSearch(b, rec, kb, t, pay, unknown);
    ExactFromProbe(inputs, b, rec, kb, t, pay, unknown);
  }

  lemma ExactFromProbe<V>(inputs: seq<Range<V>>, b: seq<byte>, rec: nat, kb: seq<byte>, t: seq<Record<V>>, pay: V -> seq<byte>, unknown: V)
    requires rec > 0 && SearchProbes(b, rec, kb, t, pay, unknown)
    requires AnswersCover(inputs, FromBE(kb), pay, Paid(Probe(t, FromBE(kb), unknown), pay))
    ensures SearchExact(inputs, b, rec, kb, pay, unknown)
  {}

  /** The whole path: insert ranges, compile, serialize, search. The search's precondition holds, and
      it answers the payload of the one kept range covering the key, or nothing when none does. */
  lemma BytesAreExact<V>(inputs: seq<Range<V>>, keyMax: nat, unknown: V, keyLen: nat, pay: V -> seq<byte>, payLen: nat, kb: seq<byte>)
    requires Admissible(inputs, keyMax, unknown, pay) && keyMax < Pow256(keyLen)
    requires payLen > 0 && forall v :: |pay(v)| == payLen
    requires |kb| == keyLen && FromBE(kb) <= keyMax
    ensures SearchExact(inputs, Compiled(inputs, keyMax, unknown, keyLen, pay), keyLen + payLen, kb, pay, unknown)
  {
    CompiledFits(inputs, keyMax, unknown, keyLen, pay, payLen);
    ProbeCovers(inputs, keyMax, unknown, pay, FromBE(kb));
    TableSearched(inputs, Table(Build(inputs), keyMax, unknown), Compiled(inputs, keyMax, unknown, keyLen, pay),
                  keyLen + payLen, kb, pay, unknown);
  }

  lemma TableKeysFit<V>(inputs: seq<Range<V>>, keyMax: nat, unknown: V)
    requires Proper(inputs)
    requires forall i :: 0 <= i < |inputs| ==> inputs[i].value != unknown && inputs[i].end <= keyMax
    ensures var t := Table(Build(inputs), keyMax, unknown);
            Increasing(t) && forall i :: 0 <= i < |t| ==> t[i].key <= keyMax
  {
    var rs := Build(inputs);
    BuildIsFirstInWins(inputs);
    KeptAreInputs(inputs);
    forall i | 0 <= i < |rs| ensures rs[i].value != unknown && rs[i].end <= keyMax {
      assert rs[i] in Elements(rs);
    }
    MergedFits(rs, keyMax, unknown);
    EmitShape(Merge(rs), None, keyMax, unknown);
  }

  ghost predicate ValuesFrom<V>(t: seq<Record<V>>, rs: seq<Range<V>>, unknown: V) {
    forall r :: r in t ==> r.value == unknown || exists o :: o in rs && o.value == r.value
  }

  lemma {:induction false} EmitValues<V>(m: seq<Range<V>>, next: Option<nat>, keyMax: nat, unknown: V, rs: seq<Range<V>>)
    requires forall r :: r in m ==> exists o :: o in rs && o.value == r.value
    ensures ValuesFrom(Emit(m, next, keyMax, unknown), rs, unknown)
  {
    if m != [] { EmitValues(m[..|m| - 1], Some(m[|m| - 1].start), keyMax, unknown, rs); }
  }

  lemma {:induction false} MergeValues<V>(rs: seq<Range<V>>, n: nat)
    requires n <= |rs|
    ensures forall r :: r in Merge(rs[..n]) ==> exists o :: o in rs && o.value == r.value
  {
    if n > 0 {
      assert rs[..n][..n - 1] == rs[..n - 1];
      MergeValues(rs, n - 1);
      assert rs[n - 1] in rs;
    }
  }

  lemma TableValues<V>(inputs: seq<Range<V>>, keyMax: nat, unknown: V)
    requires Proper(inputs)
    ensures ValuesFrom(Table(Build(inputs), keyMax, unknown), inputs, unknown)
  {
    var rs := Build(inputs);
    BuildIsFirstInWins(inputs);
    KeptAreInputs(inputs);
    MergeValues(rs, |rs|);
    assert rs[..|rs|] == rs;
    forall r | r in Merge(rs) ensures exists o :: o in inputs && o.value == r.value {
      var o :| o in rs && o.value == r.value;
      assert o in Elements(rs);
    }
    EmitValues(Merge(rs), None, keyMax, unknown, inputs);
  }

  // ---- The shipped tables ----

  const NAME_SENTINEL: nat := 0xFF_FFFF
  const U32_MAX: nat := 0xFFFF_FFFF
  const U64_MAX: nat := 0xFFFF_FFFF_FFFF_FFFF

  function NamePayload(id: nat): seq<byte> { BE(id, 3) }

  function CountryPayload(cc: (byte, byte)): seq<byte> { [cc.0, cc.1] }

  /** The key widths hold their key spaces exactly. */
  lemma KeySpaces()
    ensures Pow256(4) == U32_MAX + 1 && Pow256(8) == U64_MAX + 1 && Pow256(16) == U128_MAX + 1
  {
    assert Pow256(1) == 0x100 && Pow256(2) == 0x1_0000 && Pow256(3) == 0x100_0000;
    assert Pow256(4) == 0x1_0000_0000 && Pow256(5) == 0x100_0000_0000;
    assert Pow256(6) == 0x1_0000_0000_0000 && Pow256(7) == 0x100_0000_0000_0000;
    assert Pow256(8) == 0x1_0000_0000_0000_0000 && Pow256(9) == 0x100_0000_0000_0000_0000;
    assert Pow256(10) == 0x1_0000_0000_0000_0000_0000 && Pow256(11) == 0x100_0000_0000_0000_0000_0000;
    assert Pow256(12) == 0x1_0000_0000_0000_0000_0000_0000;
    assert Pow256(13) == 0x100_0000_0000_0000_0000_0000_0000;
    assert Pow256(14) == 0x1_0000_0000_0000_0000_0000_0000_0000;
    assert Pow256(15) == 0x100_0000_0000_0000_0000_0000_0000_0000;
  }

  lemma NameIdReadsBack(id: nat)
    requires id <= NAME_SENTINEL
    ensures FromBE(NamePayload(id)) == id
  {
    assert Pow256(3) == 0x100_0000;
    FromBEOfBE(id, 3);
  }

  /** A key width with its key space. */
  ghost predicate KeySpace(keyLen: nat, keyMax: nat) {
    (keyLen == 4 && keyMax == U32_MAX) || (keyLen == 8 && keyMax == U64_MAX) || (keyLen == 16 && keyMax == U128_MAX)
  }

  lemma KeySpaceFits(kb: seq<byte>, keyMax: nat)
    requires KeySpace(|kb|, keyMax)
    ensures KeyFits(kb, keyMax)
  {
    KeySpaces();
    FromBEBound(kb);
  }

  lemma NamesAdmissible(inputs: seq<Range<nat>>, keyMax: nat)
    requires forall i :: 0 <= i < |inputs| ==>
      inputs[i].start <= inputs[i].end <= keyMax && inputs[i].value < NAME_SENTINEL
    ensures Admissible(inputs, keyMax, NAME_SENTINEL, NamePayload)
  {
    NameIdReadsBack(NAME_SENTINEL);
    forall i | 0 <= i < |inputs| ensures NamePayload(inputs[i].value) != NamePayload(NAME_SENTINEL) {
      NameIdReadsBack(inputs[i].value);
    }
  }

  lemma NamesCovered(inputs: seq<Range<nat>>, key: nat, answer: Option<seq<byte>>)
    requires forall i :: 0 <= i < |inputs| ==> inputs[i].value < NAME_SENTINEL
    requires AnswersCover(inputs, key, NamePayload, answer)
    ensures forall k :: k in Kept(inputs) && k.start <= key <= k.end ==> answer.Some? && FromBE(answer.value) == k.value
    ensures (forall k :: k in Kept(inputs) ==> !(k.start <= key <= k.end)) ==> answer == None
  {
    KeptAreInputs(inputs);
    forall k | k in Kept(inputs) && k.start <= key <= k.end
      ensures answer.Some? && FromBE(answer.value) == k.value
    {
      assert k in inputs;
      NameIdReadsBack(k.value);
    }
  }

  lemma NamesFound(inputs: seq<Range<nat>>, b: seq<byte>, kb: seq<byte>, sentinel: nat)
    requires forall i :: 0 <= i < |inputs| ==> inputs[i].value < NAME_SENTINEL
    requires SearchExact(inputs, b, |kb| + 3, kb, NamePayload, sentinel)
    ensures var answer := Answer(b, |kb| + 3, kb, NamePayload(sentinel));
            && Partitioned(b, |kb| + 3, kb, Rows(|b|, |kb| + 3))
            && (forall k :: k in Kept(inputs) && k.start <= FromBE(kb) <= k.end ==>
                  answer.Some? && FromBE(answer.value) == k.value)
            && ((forall k :: k in Kept(inputs) ==> !(k.start <= FromBE(kb) <= k.end)) ==> answer == None)
  {
    NamesCovered(inputs, FromBE(kb), Answer(b, |kb| + 3, kb, NamePayload(sentinel)));
  }

  /** AS-name tables (4-byte keys for IPv4, 16-byte keys for IPv6, 3-byte name ids). */
  lemma AsnTableExact(inputs: seq<Range<nat>>, keyMax: nat, kb: seq<byte>)
    requires KeySpace(|kb|, keyMax)
    requires forall i :: 0 <= i < |inputs| ==>
      inputs[i].start <= inputs[i].end <= keyMax && inputs[i].value < NAME_SENTINEL
    ensures var b := Compiled(inputs, keyMax, NAME_SENTINEL, |kb|, NamePayload);
            var answer := Answer(b, |kb| + 3, kb, NamePayload(NAME_SENTINEL));
            && Partitioned(b, |kb| + 3, kb, Rows(|b|, |kb| + 3))
            && (forall k :: k in Kept(inputs) && k.start <= FromBE(kb) <= k.end ==>
                  answer.Some? && FromBE(answer.value) == k.value)
            && ((forall k :: k in Kept(inputs) ==> !(k.start <= FromBE(kb) <= k.end)) ==> answer == None)
  {
    NamesAdmissible(inputs, keyMax);
    KeySpaceFits(kb, keyMax);
    BytesAreExact(inputs, keyMax, NAME_SENTINEL, |kb|, NamePayload, 3, kb);
    NamesFound(inputs, Compiled(inputs, keyMax, NAME_SENTINEL, |kb|, NamePayload), kb, NAME_SENTINEL);
  }

  lemma CountriesAdmissible(inputs: seq<Range<(byte, byte)>>, keyMax: nat)
    requires forall i :: 0 <= i < |inputs| ==>
      inputs[i].start <= inputs[i].end <= keyMax && inputs[i].value != (0, 0)
    ensures Admissible(inputs, keyMax, (0, 0), CountryPayload)
  {
    forall i | 0 <= i < |inputs| ensures CountryPayload(inputs[i].value) != CountryPayload((0, 0)) {
      var cc := inputs[i].value;
      assert CountryPayload(cc)[0] == cc.0 && CountryPayload(cc)[1] == cc.1;
    }
  }

  lemma CountriesFound(inputs: seq<Range<(byte, byte)>>, b: seq<byte>, kb: seq<byte>, unknown: (byte, byte))
    requires SearchExact(inputs, b, |kb| + 2, kb, CountryPayload, unknown)
    ensures var answer := Answer(b, |kb| + 2, kb, [unknown.0, unknown.1]);
            && Partitioned(b, |kb| + 2, kb, Rows(|b|, |kb| + 2))
            && (forall k :: k in Kept(inputs) && k.start <= FromBE(kb) <= k.end ==> answer == Some([k.value.0, k.value.1]))
            && ((forall k :: k in Kept(inputs) ==> !(k.start <= FromBE(kb) <= k.end)) ==> answer == None)
  {}

  /** Country tables (4-byte keys for IPv4, 8-byte keys for IPv6, two-letter codes, [0,0] unknown). */
  lemma CountryTableExact(inputs: seq<Range<(byte, byte)>>, keyMax: nat, kb: seq<byte>)
    requires KeySpace(|kb|, keyMax)
    requires forall i :: 0 <= i < |inputs| ==>
      inputs[i].start <= inputs[i].end <= keyMax && inputs[i].value != (0, 0)
    ensures var b := Compiled(inputs, keyMax, (0, 0), |kb|, CountryPayload);
            var answer := Answer(b, |kb| + 2, kb, [0, 0]);
            && Partitioned(b, |kb| + 2, kb, Rows(|b|, |kb| + 2))
            && (forall k :: k in Kept(inputs) && k.start <= FromBE(kb) <= k.end ==> answer == Some([k.value.0, k.value.1]))
            && ((forall k :: k in Kept(inputs) ==> !(k.start <= FromBE(kb) <= k.end)) ==> answer == None)
  {
    CountriesAdmissible(inputs, keyMax);
    KeySpaceFits(kb, keyMax);
    BytesAreExact(inputs, keyMax, (0, 0), |kb|, CountryPayload, 2, kb);
    CountriesFound(inputs, Compiled(inputs, keyMax, (0, 0), |kb|, CountryPayload), kb, (0, 0));
  }
}
