/** The reversed-label trie of blocked names: insertion with subsumption pruning and provenance
    masks, and the set of paths it stands for. */
module Trie {
  import opened Names

  /** Which sources armed a name: the positions of the set bits of the source's 32-bit mask. The
      trie only ever ORs masks together, so no bit position outside the word can appear. */
  type Mask = set<nat>

  datatype Node = Node(children: map<string, Node>, terminal: bool, sources: Mask)

  const Empty: Node := Node(map[], false, {})

  function ChildOf(t: Node, l: string): Node {
    if l in t.children then t.children[l] else Empty
  }

  /** Walk `path` from a node that is not terminal, creating what is missing. A terminal met on the
      way absorbs the mask and ends the walk; the node at the end becomes a childless terminal. */
  function Insert(t: Node, path: Path, mask: Mask): Node
    decreases |path|
  {
    if path == [] then Node(map[], true, t.sources + mask)
    else
      var child := ChildOf(t, path[0]);
      var grown := if child.terminal then child.(sources := child.sources + mask)
                   else Insert(child, path[1..], mask);
      t.(children := t.children[path[0] := grown])
  }

  // ---- The canonical shape ----

  ghost predicate Canonical(t: Node) {
    && (forall l :: l in t.children ==> Canonical(t.children[l]))
    && (if t.terminal then t.children == map[] else t.sources == {} && t.children != map[])
  }

  /** A root: never terminal, possibly empty. */
  ghost predicate IsRoot(t: Node) {
    !t.terminal && t.sources == {} && forall l :: l in t.children ==> Canonical(t.children[l])
  }

  /** The paths on which a name terminates. */
  ghost function Terminals(t: Node): set<Path> {
    if t.terminal then {[]}
    else set l, p | l in t.children && p in Terminals(t.children[l]) :: [l] + p
  }

  lemma TerminalsAt(t: Node, p: Path)
    requires !t.terminal
    ensures p in Terminals(t) <==>
            p != [] && p[0] in t.children && p[1..] in Terminals(t.children[p[0]])
  {
    if p != [] && p[0] in t.children && p[1..] in Terminals(t.children[p[0]]) {
      assert p == [p[0]] + p[1..];
    }
    if p in Terminals(t) {
      var l, q :| l in t.children && q in Terminals(t.children[l]) && p == [l] + q;
      assert p[1..] == q;
    }
  }

  /** Some path of `s` is `p` or a proper prefix of it. */
  ghost predicate Covered(s: set<Path>, p: Path) {
    exists q :: q in s && q <= p
  }

  /** Insertion on sets of paths: nothing if covered, else the path replaces all it covers. */
  ghost function Absorb(s: set<Path>, p: Path): set<Path> {
    if Covered(s, p) then s else (set q | q in s && !(p <= q)) + {p}
  }

  lemma PrefixTail(q: Path, p: Path)
    requires q != [] && p != []
    ensures q <= p <==> q[0] == p[0] && q[1..] <= p[1..]
  {
    if q[0] == p[0] && q[1..] <= p[1..] {
      assert q == [q[0]] + q[1..] && p == [p[0]] + p[1..];
    }
  }

  lemma CoveredBelow(t: Node, p: Path)
    requires !t.terminal && p != []
    ensures Covered(Terminals(t), p) <==>
            p[0] in t.children && Covered(Terminals(t.children[p[0]]), p[1..])
  {
    if Covered(Terminals(t), p) {
      var q :| q in Terminals(t) && q <= p;
      TerminalsAt(t, q);
      PrefixTail(q, p);
    }
    if p[0] in t.children && Covered(Terminals(t.children[p[0]]), p[1..]) {
      var q :| q in Terminals(t.children[p[0]]) && q <= p[1..];
      var r := [p[0]] + q;
      TerminalsAt(t, r);
      PrefixTail(r, p);
    }
  }

  /** What membership in the absorbed set means. */
  lemma AbsorbMember(s: set<Path>, p: Path, q: Path)
    ensures q in Absorb(s, p) <==>
            if Covered(s, p) then q in s else q == p || (q in s && !(p <= q))
  {}

  lemma EmptyTerminals(t: Node)
    requires !t.terminal && t.children == map[]
    ensures Terminals(t) == {}
  {}

  /** One insertion does to the trie what Absorb does to its set of paths. */
  lemma {:induction false} InsertAbsorbs(t: Node, path: Path, mask: Mask)
    requires !t.terminal && forall l :: l in t.children ==> Canonical(t.children[l])
    ensures Terminals(Insert(t, path, mask)) == Absorb(Terminals(t), path)
    decreases |path|
  {
    var n := Insert(t, path, mask);
    if path == [] {
      forall q | q in Terminals(t) ensures q != [] { TerminalsAt(t, q); }
    } else {
      forall q ensures q in Terminals(n) <==> q in Absorb(Terminals(t), path) {
        InsertMember(t, path, mask, q);
      }
    }
  }

  lemma {:induction false} InsertMember(t: Node, path: Path, mask: Mask, q: Path)
    requires path != []
    requires !t.terminal && forall l :: l in t.children ==> Canonical(t.children[l])
    ensures q in Terminals(Insert(t, path, mask)) <==> q in Absorb(Terminals(t), path)
    decreases |path|, 0
  {
    var n := Insert(t, path, mask);
    TerminalsAt(n, q);
    TerminalsAt(t, q);
    AbsorbMember(Terminals(t), path, q);
    CoveredBelow(t, path);
    if q != [] && q[0] == path[0] {
      PrefixTail(path, q);
      var child := ChildOf(t, path[0]);
      assert q == path <==> q[1..] == path[1..] by {
        assert q == [q[0]] + q[1..] && path == [path[0]] + path[1..];
      }
      if child.terminal {
        assert [] <= path[1..] && [] in Terminals(child);
      } else {
        InsertAbsorbs(child, path[1..], mask);
        AbsorbMember(Terminals(child), path[1..], q[1..]);
        if path[0] !in t.children { EmptyTerminals(child); }
      }
    }
  }

  lemma {:induction false} InsertCanonical(t: Node, path: Path, mask: Mask)
    requires !t.terminal && t.sources == {} && forall l :: l in t.children ==> Canonical(t.children[l])
    ensures Canonical(Insert(t, path, mask))
    ensures path != [] ==> IsRoot(Insert(t, path, mask))
    decreases |path|
  {
    if path != [] {
      var child := ChildOf(t, path[0]);
      if !child.terminal { InsertCanonical(child, path[1..], mask); }
      assert path[0] in Insert(t, path, mask).children;
    }
  }

  // ---- Any sequence of insertions ----

  /** One insert call; the plain form passes no source bit. */
  datatype Call = Call(path: Path, mask: Mask)

  ghost predicate Proper(calls: seq<Call>) {
    forall i :: 0 <= i < |calls| ==> calls[i].path != []
  }

  function Build(calls: seq<Call>): Node {
    if calls == [] then Empty
    else Insert(Build(calls[..|calls| - 1]), calls[|calls| - 1].path, calls[|calls| - 1].mask)
  }

  ghost function Paths(calls: seq<Call>): set<Path> {
    set i | 0 <= i < |calls| :: calls[i].path
  }

  /** The members with no proper prefix in the set. */
  ghost function Minimal(s: set<Path>): set<Path> {
    set p | p in s && forall q :: q in s && q <= p ==> q == p
  }

  /** Dropping what is covered covers no less. */
  lemma {:induction false} MinimalCovers(s: set<Path>, p: Path)
    ensures Covered(Minimal(s), p) <==> Covered(s, p)
    decreases |p|
  {
    if Covered(s, p) {
      var q :| q in s && q <= p;
      if r :| r in s && r <= q && r != q {
        MinimalCovers(s, r);
        var m :| m in Minimal(s) && m <= r;
        assert m <= p;
      } else {
        assert q in Minimal(s);
      }
    }
  }

  lemma AbsorbMinimal(s: set<Path>, p: Path)
    ensures Absorb(Minimal(s), p) == Minimal(s + {p})
  {
    MinimalCovers(s, p);
    var m, n := Minimal(s), Minimal(s + {p});
    if Covered(s, p) {
      forall q ensures q in m <==> q in n {
        if q in m {
          if p <= q {
            var c :| c in s && c <= p;
            assert c <= q;
          }
        }
      }
    } else {
      forall q ensures q in Absorb(m, p) <==> q in n {
        if q == p {
          assert forall r :: r in s + {p} && r <= p ==> r == p;
        }
      }
    }
  }

  lemma PathsStep(calls: seq<Call>)
    requires calls != []
    ensures Paths(calls) == Paths(calls[..|calls| - 1]) + {calls[|calls| - 1].path}
  {
    var before, last := calls[..|calls| - 1], calls[|calls| - 1];
    forall p ensures p in Paths(calls) <==> p in Paths(before) + {last.path} {
      if p in Paths(calls) {
        var i :| 0 <= i < |calls| && calls[i].path == p;
        if i < |before| { assert before[i].path == p; }
      }
      if p in Paths(before) {
        var i :| 0 <= i < |before| && before[i].path == p;
        assert calls[i].path == p;
      }
      if p == last.path { assert calls[|calls| - 1].path == p; }
    }
  }

  /** After any sequence of inserts the trie is canonical and its terminals are exactly the inserted
      paths with no inserted proper prefix. */
  lemma {:induction false} BuildIsMinimal(calls: seq<Call>)
    requires Proper(calls)
    ensures IsRoot(Build(calls)) && Terminals(Build(calls)) == Minimal(Paths(calls))
  {
    if calls == [] {
      EmptyTerminals(Empty);
      assert Paths(calls) == {};
    } else {
      var before, last := calls[..|calls| - 1], calls[|calls| - 1];
      BuildIsMinimal(before);
      InsertCanonical(Build(before), last.path, last.mask);
      InsertAbsorbs(Build(before), last.path, last.mask);
      AbsorbMinimal(Paths(before), last.path);
      PathsStep(calls);
    }
  }

  /** Two sets of paths that cover the same paths have the same minimal members. */
  lemma SameCoverSameMinimal(a: set<Path>, b: set<Path>)
    requires forall p :: Covered(a, p) <==> Covered(b, p)
    ensures Minimal(a) == Minimal(b)
  {
    forall p ensures p in Minimal(a) ==> p in Minimal(b) { MinimalBy(a, b, p); }
    forall p ensures p in Minimal(b) ==> p in Minimal(a) { MinimalBy(b, a, p); }
  }

  lemma MinimalBy(a: set<Path>, b: set<Path>, p: Path)
    requires forall p :: Covered(a, p) <==> Covered(b, p)
    ensures p in Minimal(a) ==> p in Minimal(b)
  {
    if p in Minimal(a) {
      assert Covered(a, p) && Covered(b, p);
      forall q | q in b && q <= p ensures q == p {
        assert Covered(b, q) && Covered(a, q);
        var r :| r in a && r <= q;
        assert r <= p;
      }
    }
  }

  // ---- The trie is determined by its set ----

  /** The trie with all provenance forgotten. */
  ghost function Erase(t: Node): Node {
    Node(map l | l in t.children :: Erase(t.children[l]), t.terminal, {})
  }

  lemma {:induction false} CanonicalHasTerminal(t: Node) returns (p: Path)
    requires Canonical(t)
    ensures p in Terminals(t)
  {
    if t.terminal {
      p := [];
    } else {
      var l :| l in t.children;
      var q := CanonicalHasTerminal(t.children[l]);
      p := [l] + q;
      TerminalsAt(t, p);
    }
  }

  lemma SameTerminalsSameKeys(a: Node, b: Node, l: string)
    requires !a.terminal && !b.terminal && Terminals(a) == Terminals(b) && l in a.children && Canonical(a.children[l])
    ensures l in b.children
  {
    var q := CanonicalHasTerminal(a.children[l]);
    TerminalsAt(a, [l] + q);
    TerminalsAt(b, [l] + q);
  }

  lemma SameTerminalsBelow(a: Node, b: Node, l: string)
    requires !a.terminal && !b.terminal && Terminals(a) == Terminals(b) && l in a.children && l in b.children
    ensures Terminals(a.children[l]) == Terminals(b.children[l])
  {
    forall q ensures q in Terminals(a.children[l]) <==> q in Terminals(b.children[l]) {
      TerminalsAt(a, [l] + q);
      TerminalsAt(b, [l] + q);
    }
  }

  /** Canonical tries with the same terminals are the same trie, provenance aside. */
  lemma {:induction false} TerminalsDetermine(a: Node, b: Node)
    requires (forall l :: l in a.children ==> Canonical(a.children[l])) && (a.terminal ==> a.children == map[])
    requires (forall l :: l in b.children ==> Canonical(b.children[l])) && (b.terminal ==> b.children == map[])
    requires Terminals(a) == Terminals(b)
    ensures Erase(a) == Erase(b)
  {
    if a.terminal {
      assert [] in Terminals(b);
      if !b.terminal { TerminalsAt(b, []); }
    } else if b.terminal {
      assert [] in Terminals(a);
      TerminalsAt(a, []);
    } else {
      forall l ensures l in a.children <==> l in b.children {
        if l in a.children { SameTerminalsSameKeys(a, b, l); }
        if l in b.children { SameTerminalsSameKeys(b, a, l); }
      }
      forall l | l in a.children ensures Erase(a.children[l]) == Erase(b.children[l]) {
        SameTerminalsBelow(a, b, l);
        TerminalsDetermine(a.children[l], b.children[l]);
      }
      assert Erase(a).children == Erase(b).children;
    }
  }

  /** Lists that block the same names build the same trie, in whatever order, with whatever
      repetitions and subsumed extras. */
  lemma SameBlockingSameTrie(xs: seq<Call>, ys: seq<Call>)
    requires Proper(xs) && Proper(ys)
    requires forall p :: Covered(Paths(xs), p) <==> Covered(Paths(ys), p)
    ensures Terminals(Build(xs)) == Terminals(Build(ys)) && Erase(Build(xs)) == Erase(Build(ys))
  {
    BuildIsMinimal(xs);
    BuildIsMinimal(ys);
    SameCoverSameMinimal(Paths(xs), Paths(ys));
    TerminalsDetermine(Build(xs), Build(ys));
  }

  // ---- Provenance ----

  /** The mask of the terminal covering `p`, walking top-down; empty where the walk finds none. */
  ghost function MaskOn(t: Node, p: Path): Mask
    decreases |p|
  {
    if t.terminal || p == [] then t.sources
    else if p[0] in t.children then MaskOn(t.children[p[0]], p[1..])
    else {}
  }

  /** The calls at or beneath `p` from the call that inserted `p` itself onward, OR-ed. */
  ghost function Corroboration(calls: seq<Call>, p: Path): Mask {
    if calls == [] then {}
    else
      var before, last := calls[..|calls| - 1], calls[|calls| - 1];
      if last.path == p then Corroboration(before, p) + last.mask
      else if p <= last.path && p in Paths(before) then Corroboration(before, p) + last.mask
      else Corroboration(before, p)
  }

  lemma {:induction false} UncoveredMask(t: Node, p: Path)
    requires !t.terminal && t.sources == {} && forall l :: l in t.children ==> Canonical(t.children[l])
    requires !Covered(Terminals(t), p)
    ensures MaskOn(t, p) == {}
    decreases |p|
  {
    if p != [] {
      CoveredBelow(t, p);
      assert [] <= p[1..];
      if p[0] in t.children && !t.children[p[0]].terminal { UncoveredMask(t.children[p[0]], p[1..]); }
    }
  }

  lemma MaskBelow(t: Node, q: Path)
    requires !t.terminal && q != [] && q[0] in t.children
    ensures MaskOn(t, q) == MaskOn(t.children[q[0]], q[1..])
  {}

  lemma ConsEqual(q: Path, p: Path)
    requires q != [] && p != [] && q[0] == p[0]
    ensures q == p <==> q[1..] == p[1..]
  {
    assert q == [q[0]] + q[1..] && p == [p[0]] + p[1..];
  }

  /** An insertion ORs its mask into the terminals at or above its path and touches no other. */
  lemma {:induction false} InsertMaskKept(t: Node, path: Path, mask: Mask, q: Path)
    requires !t.terminal && path != [] && q in Terminals(t) && (path <= q ==> path == q)
    ensures MaskOn(Insert(t, path, mask), q) == if q <= path then MaskOn(t, q) + mask else MaskOn(t, q)
    decreases |path|
  {
    TerminalsAt(t, q);
    PrefixTail(q, path);
    PrefixTail(path, q);
    MaskBelow(t, q);
    MaskBelow(Insert(t, path, mask), q);
    if q[0] == path[0] {
      var child := t.children[q[0]];
      if child.terminal {
        assert q[1..] == [] && [] <= path[1..];
      } else {
        ConsEqual(q, path);
        TerminalsAt(child, q[1..]);
        assert [] <= q[1..];
        InsertMaskKept(child, path[1..], mask, q[1..]);
      }
    }
  }

  lemma {:induction false} InsertMaskNew(t: Node, path: Path, mask: Mask)
    requires !t.terminal && t.sources == {} && forall l :: l in t.children ==> Canonical(t.children[l])
    requires !Covered(Terminals(t), path)
    ensures MaskOn(Insert(t, path, mask), path) == mask
    decreases |path|
  {
    if path != [] {
      CoveredBelow(t, path);
      var child := ChildOf(t, path[0]);
      assert [] <= path[1..];
      if path[0] !in t.children { EmptyTerminals(child); }
      InsertMaskNew(child, path[1..], mask);
    }
  }

  lemma {:induction false} NoCorroboration(calls: seq<Call>, p: Path)
    requires p !in Paths(calls)
    ensures Corroboration(calls, p) == {}
  {
    if calls != [] {
      PathsStep(calls);
      NoCorroboration(calls[..|calls| - 1], p);
    }
  }

  /** After any mix of tagged and untagged inserts, each terminal's mask is the OR of the masks of
      all calls at or beneath it, from the call that made it terminal onward. */
  lemma {:induction false} MaskIsCorroboration(calls: seq<Call>, p: Path)
    requires Proper(calls) && p in Minimal(Paths(calls))
    ensures MaskOn(Build(calls), p) == Corroboration(calls, p)
  {
    var before := calls[..|calls| - 1];
    PathsStep(calls);
    if p in Paths(before) {
      OldTerminal(calls, p);
      MaskIsCorroboration(before, p);
    } else {
      NoCorroboration(before, p);
      NewTerminal(calls, p);
    }
  }

  lemma OldTerminal(calls: seq<Call>, p: Path)
    requires calls != [] && Proper(calls) && p in Minimal(Paths(calls)) && p in Paths(calls[..|calls| - 1])
    ensures p in Minimal(Paths(calls[..|calls| - 1]))
    ensures var t, last := Build(calls[..|calls| - 1]), calls[|calls| - 1];
            MaskOn(Build(calls), p) == if p <= last.path then MaskOn(t, p) + last.mask else MaskOn(t, p)
  {
    BuildIsMinimal(calls[..|calls| - 1]);
    PathsStep(calls);
    var last := calls[|calls| - 1];
    assert last.path in Paths(calls);
    InsertMaskKept(Build(calls[..|calls| - 1]), last.path, last.mask, p);
  }

  lemma NewTerminal(calls: seq<Call>, p: Path)
    requires calls != [] && Proper(calls) && p in Minimal(Paths(calls)) && p !in Paths(calls[..|calls| - 1])
    ensures p == calls[|calls| - 1].path && MaskOn(Build(calls), p) == calls[|calls| - 1].mask
  {
    var before := calls[..|calls| - 1];
    BuildIsMinimal(before);
    PathsStep(calls);
    assert forall q :: q in Paths(before) && q <= p ==> q in Paths(calls) && q == p;
    MinimalCovers(Paths(before), p);
    InsertMaskNew(Build(before), p, calls[|calls| - 1].mask);
  }

  lemma EraseUpdate(t: Node, l: string, c: Node)
    ensures Erase(t.(children := t.children[l := c])) == Erase(t).(children := Erase(t).children[l := Erase(c)])
  {
    assert Erase(t.(children := t.children[l := c])).children == Erase(t).children[l := Erase(c)];
  }

  lemma EraseTerminal(s: Mask)
    ensures Erase(Node(map[], true, s)) == Node(map[], true, {})
  {
    assert Erase(Node(map[], true, s)).children == map[];
  }

  /** Provenance never changes the set: erasing masks after tagged inserts gives the trie that
      untagged inserts build. */
  lemma {:induction false} EraseInsert(t: Node, path: Path, mask: Mask)
    ensures Erase(Insert(t, path, mask)) == Insert(Erase(t), path, {})
    decreases |path|
  {
    if path == [] {
      EraseTerminal(t.sources + mask);
    } else {
      var child := ChildOf(t, path[0]);
      EraseChild(t, path[0]);
      if child.terminal {
        EraseMask(child, child.sources + mask);
        var none: Mask := {};
        assert Erase(child).sources + none == none;
        EraseUpdate(t, path[0], child.(sources := child.sources + mask));
      } else {
        EraseInsert(child, path[1..], mask);
        EraseUpdate(t, path[0], Insert(child, path[1..], mask));
      }
    }
  }

  lemma EraseChild(t: Node, l: string)
    ensures Erase(ChildOf(t, l)) == ChildOf(Erase(t), l)
  {
    assert Erase(Empty).children == map[];
  }

  lemma EraseMask(t: Node, m: Mask)
    ensures Erase(t.(sources := m)) == Erase(t)
  {}

  ghost function Untagged(calls: seq<Call>): (r: seq<Call>)
    ensures |r| == |calls|
  {
    seq(|calls|, i requires 0 <= i < |calls| => Call(calls[i].path, {}))
  }

  lemma {:induction false} EraseBuild(calls: seq<Call>)
    ensures Erase(Build(calls)) == Build(Untagged(calls))
  {
    if calls != [] {
      var before, last := calls[..|calls| - 1], calls[|calls| - 1];
      EraseBuild(before);
      EraseInsert(Build(before), last.path, last.mask);
      assert Untagged(calls)[..|calls| - 1] == Untagged(before);
    }
  }

  // ---- Covering ----

  lemma {:induction false} TerminalsAntichain(t: Node, p: Path, q: Path)
    requires (forall l :: l in t.children ==> Canonical(t.children[l])) && p in Terminals(t) && q in Terminals(t) && q <= p
    ensures q == p
    decreases |p|
  {
    if !t.terminal {
      TerminalsAt(t, p);
      TerminalsAt(t, q);
      PrefixTail(q, p);
      TerminalsAntichain(t.children[p[0]], p[1..], q[1..]);
      ConsEqual(q, p);
    }
  }

  lemma RootIsMinimal(t: Node)
    requires IsRoot(t)
    ensures Minimal(Terminals(t)) == Terminals(t)
  {
    forall p, q | p in Terminals(t) && q in Terminals(t) && q <= p ensures q == p { TerminalsAntichain(t, p, q); }
  }

  lemma CoveredUnion(a: set<Path>, b: set<Path>, p: Path)
    ensures Covered(a + b, p) <==> Covered(a, p) || Covered(b, p)
  {
    if Covered(a + b, p) {
      var q :| q in a + b && q <= p;
      assert q in a || q in b;
    }
    if Covered(a, p) { var q :| q in a && q <= p; assert q in a + b; }
    if Covered(b, p) { var q :| q in b && q <= p; assert q in a + b; }
  }

  /** If every member of `a` is covered by `b`, then `b` covers all that `a` covers. */
  lemma CoverTransitive(a: set<Path>, b: set<Path>, p: Path)
    requires Covered(a, p) && forall q :: q in a ==> Covered(b, q)
    ensures Covered(b, p)
  {
    var q :| q in a && q <= p;
    var r :| r in b && r <= q;
    assert r <= p;
  }
}
