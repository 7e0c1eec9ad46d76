/** Installing a compiled list: replace the active matcher, or merge the new list into it by
    replaying the names of its terminals. */
module Install {
  import opened Sequences
  import opened Names
  import opened Blocklist
  import Trie
  import Digest

  /** Insert the path `f` reads from a name, if any. */
  function InsertBy(f: string -> Path, t: Node, name: string): Node {
    if f(name) == [] then t else Trie.Insert(t, f(name), {})
  }

  function ReplayBy(f: string -> Path, t: Node, names: seq<string>): Node {
    if names == [] then t
    else InsertBy(f, ReplayBy(f, t, names[..|names| - 1]), names[|names| - 1])
  }

  /** Replay names, in the given order, into a trie. */
  function Replay(t: Node, names: seq<string>): Node { ReplayBy(InsertPath, t, names) }

  ghost function NamedZones(f: string -> Path, names: seq<string>): set<Path> {
    set n | n in names && f(n) != [] :: f(n)
  }

  /** The paths of `s`, named by `g` and read back by `f`. */
  ghost function ImageBy(f: string -> Path, g: Path -> string, s: set<Path>): set<Path> {
    set p | p in s && f(g(p)) != [] :: f(g(p))
  }

  /** The stored paths as they are replayed: each path's name, normalised again. */
  ghost function ReadBack(t: Node): set<Path> { ImageBy(InsertPath, NameOf, Trie.Terminals(t)) }

  lemma NamedZonesStep(f: string -> Path, names: seq<string>)
    requires names != []
    ensures var before, last := names[..|names| - 1], names[|names| - 1];
            NamedZones(f, names) == NamedZones(f, before) + (if f(last) == [] then {} else {f(last)})
  {
    assert names == names[..|names| - 1] + [names[|names| - 1]];
  }

  lemma {:induction false} ReplayByCovers(f: string -> Path, t: Node, names: seq<string>)
    requires Trie.IsRoot(t)
    ensures Trie.IsRoot(ReplayBy(f, t, names))
    ensures Trie.Terminals(ReplayBy(f, t, names)) == Trie.Minimal(Trie.Terminals(t) + NamedZones(f, names))
  {
    if names == [] {
      assert Trie.Terminals(t) + NamedZones(f, names) == Trie.Terminals(t);
      Trie.RootIsMinimal(t);
    } else {
      var before, last := names[..|names| - 1], names[|names| - 1];
      ReplayByCovers(f, t, before);
      NamedZonesStep(f, names);
      var zones, path := Trie.Terminals(t) + NamedZones(f, before), f(last);
      if path != [] {
        Trie.InsertCanonical(ReplayBy(f, t, before), path, {});
        Trie.InsertAbsorbs(ReplayBy(f, t, before), path, {});
        Trie.AbsorbMinimal(zones, path);
        assert zones + {path} == Trie.Terminals(t) + NamedZones(f, names);
      } else {
        assert zones == Trie.Terminals(t) + NamedZones(f, names);
      }
    }
  }

  lemma ReplayCovers(t: Node, names: seq<string>)
    requires Trie.IsRoot(t)
    ensures Trie.Terminals(Replay(t, names)) == Trie.Minimal(Trie.Terminals(t) + NamedZones(InsertPath, names))
  {
    ReplayByCovers(InsertPath, t, names);
  }

  ghost predicate Enumerates(g: Path -> string, names: seq<string>, s: set<Path>) {
    forall x :: x in names <==> exists p :: p in s && g(p) == x
  }

  lemma ZonesByName(f: string -> Path, g: Path -> string, names: seq<string>, s: set<Path>)
    requires Enumerates(g, names, s)
    ensures NamedZones(f, names) == ImageBy(f, g, s)
  {
    forall q ensures q in NamedZones(f, names) <==> q in ImageBy(f, g, s) {
      if q in NamedZones(f, names) {
        var x :| x in names && f(x) != [] && q == f(x);
        var p :| p in s && g(p) == x;
      }
      if q in ImageBy(f, g, s) {
        var p :| p in s && f(g(p)) != [] && q == f(g(p));
        assert g(p) in names;
      }
    }
  }

  lemma ListsEnumerates(n: Node, names: seq<string>)
    requires Lists(names, BlockedNames(n))
    ensures Enumerates(NameOf, names, Trie.Terminals(n))
  {
    var s := Trie.Terminals(n);
    forall p: Path ensures [] + p == p {}
    forall x ensures x in names <==> exists p :: p in s && NameOf(p) == x {
      assert x in names <==> x in BlockedNames(n);
    }
  }

  /** Listing the names of a trie and normalising them is reading its paths back. */
  lemma ReplayedZones(n: Node, names: seq<string>)
    requires Lists(names, BlockedNames(n))
    ensures NamedZones(InsertPath, names) == ReadBack(n)
  {
    ListsEnumerates(n, names);
    ZonesByName(InsertPath, NameOf, names, Trie.Terminals(n));
  }

  /** Each stored path of the new list is still covered once read back, and nothing read back covers
      more than the two lists did. */
  ghost predicate Faithful(e: Node, n: Node) {
    var te, tn, back := Trie.Terminals(e), Trie.Terminals(n), ReadBack(n);
    && (forall p :: p in tn ==> Trie.Covered(te + back, p))
    && (forall p :: p in back ==> Trie.Covered(te + tn, p))
  }

  /** The merged verdict on every path is the OR of the two verdicts. */
  ghost predicate MergesToOr(e: Node, n: Node, m: Node) {
    forall p :: Trie.Covered(Trie.Terminals(m), p) <==>
                Trie.Covered(Trie.Terminals(e), p) || Trie.Covered(Trie.Terminals(n), p)
  }

  lemma MergedTerminals(e: Node, n: Node, names: seq<string>)
    requires ValidRoot(e) && Lists(names, BlockedNames(n))
    ensures Trie.Terminals(Replay(e, names)) == Trie.Minimal(Trie.Terminals(e) + ReadBack(n))
  {
    ReplayCovers(e, names);
    ReplayedZones(n, names);
  }

  lemma MergedCovers(e: Node, n: Node, names: seq<string>, p: Path)
    requires ValidRoot(e) && ValidRoot(n) && Lists(names, BlockedNames(n))
    ensures Trie.Covered(Trie.Terminals(Replay(e, names)), p) <==>
            Trie.Covered(Trie.Terminals(e) + ReadBack(n), p)
  {
    MergedTerminals(e, n, names);
    Trie.MinimalCovers(Trie.Terminals(e) + ReadBack(n), p);
  }

  /** Merging gives exactly the OR of the two verdicts if and only if the replay is faithful, which is
      a check on the terminals alone. */
  lemma MergeExactly(e: Node, n: Node, names: seq<string>)
    requires ValidRoot(e) && ValidRoot(n) && Lists(names, BlockedNames(n))
    ensures MergesToOr(e, n, Replay(e, names)) <==> Faithful(e, n)
  {
    var te, tn, back := Trie.Terminals(e), Trie.Terminals(n), ReadBack(n);
    if MergesToOr(e, n, Replay(e, names)) {
      forall p | p in tn ensures Trie.Covered(te + back, p) {
        assert p <= p && Trie.Covered(tn, p);
        MergedCovers(e, n, names, p);
      }
      forall p | p in back ensures Trie.Covered(te + tn, p) {
        assert p <= p && Trie.Covered(back, p);
        Trie.CoveredUnion(te, back, p);
        MergedCovers(e, n, names, p);
        Trie.CoveredUnion(te, tn, p);
      }
    }
    if Faithful(e, n) {
      forall p ensures Trie.Covered(Trie.Terminals(Replay(e, names)), p) <==> Trie.Covered(te, p) || Trie.Covered(tn, p) {
        MergedCovers(e, n, names, p);
        Trie.CoveredUnion(te, back, p);
        Trie.CoveredUnion(te, tn, p);
        if Trie.Covered(back, p) { Trie.CoverTransitive(back, te + tn, p); }
        if Trie.Covered(tn, p) { Trie.CoverTransitive(tn, te + back, p); }
      }
    }
  }

  ghost predicate AllSelfNormal(t: Node) {
    forall p :: p in Trie.Terminals(t) ==> p != [] && SelfNormal(p)
  }

  lemma ImageOfFixed(f: string -> Path, g: Path -> string, s: set<Path>)
    requires forall p :: p in s ==> p != [] && f(g(p)) == p
    ensures ImageBy(f, g, s) == s
  {
    forall q ensures q in ImageBy(f, g, s) <==> q in s {
      if q in s { assert f(g(q)) == q; }
    }
  }

  lemma SelfNormalReadsBack(n: Node)
    requires AllSelfNormal(n)
    ensures ReadBack(n) == Trie.Terminals(n)
  {
    forall p | p in Trie.Terminals(n) ensures p != [] && InsertPath(NameOf(p)) == p { assert SelfNormal(p); }
    ImageOfFixed(InsertPath, NameOf, Trie.Terminals(n));
  }

  lemma SelfNormalFaithful(e: Node, n: Node)
    requires ReadBack(n) == Trie.Terminals(n)
    ensures Faithful(e, n)
  {
    var both := Trie.Terminals(e) + Trie.Terminals(n);
    forall p | p in Trie.Terminals(n) ensures Trie.Covered(both, p) { assert p in both && p <= p; }
  }

  /** When every stored name survives re-normalising, merging is the OR of the verdicts, and merging
      either way round gives the same set. */
  lemma MergeIsOr(e: Node, n: Node, intoE: seq<string>, intoN: seq<string>)
    requires ValidRoot(e) && ValidRoot(n) && AllSelfNormal(e) && AllSelfNormal(n)
    requires Lists(intoE, BlockedNames(n)) && Lists(intoN, BlockedNames(e))
    ensures MergesToOr(e, n, Replay(e, intoE))
    ensures Trie.Terminals(Replay(e, intoE)) == Trie.Terminals(Replay(n, intoN))
  {
    SelfNormalReadsBack(e);
    SelfNormalReadsBack(n);
    SelfNormalFaithful(e, n);
    MergeExactly(e, n, intoE);
    MergedTerminals(e, n, intoE);
    MergedTerminals(n, e, intoN);
    assert Trie.Terminals(e) + Trie.Terminals(n) == Trie.Terminals(n) + Trie.Terminals(e);
  }

  /** A name stored as one label and read back as another (such as "a .", stored as "a " and read
      back as "a"): merging its list into an empty one blocks a name neither list blocked. */
  lemma MergeCanMisread(d: string, stored: string, read: string)
    requires InsertPath(d) == [stored] && InsertPath(stored) == [read] && stored != read
    ensures var n := Load([Entry(d, {})]);
            && Trie.Terminals(n) == {[stored]} && BlockedNames(n) == {stored}
            && !Trie.Covered(Trie.Terminals(n), [read])
            && Trie.Covered(Trie.Terminals(Replay(Trie.Empty, [stored])), [read])
  {
    LoneEntry(d, stored);
    LoneBlocked(Load([Entry(d, {})]), stored);
    assert [stored][0] != [read][0];
    ReplayLone(stored, read);
  }

  lemma LoneZones(d: string, stored: string)
    requires InsertPath(d) == [stored]
    ensures Zones([Entry(d, {})]) == {[stored]}
  {
    var entries := [Entry(d, {})];
    EntryZone(entries, 0);
    forall q | q in Zones(entries) ensures q == [stored] { var i := ZoneEntry(entries, q); }
  }

  lemma LoneEntry(d: string, stored: string)
    requires InsertPath(d) == [stored]
    ensures Trie.Terminals(Load([Entry(d, {})])) == {[stored]}
  {
    LoneZones(d, stored);
    LoadIsMinimal([Entry(d, {})]);
    LoneMinimal([stored]);
  }

  lemma LoneBlocked(n: Node, l: string)
    requires Trie.Terminals(n) == {[l]}
    ensures BlockedNames(n) == {l}
  {
    LoneName(l);
  }

  lemma LoneMinimal(p: Path)
    ensures Trie.Minimal({p}) == {p}
  {}

  lemma LoneName(l: string)
    ensures NameOf([] + [l]) == l
  {
    assert [] + [l] == [l] && Reverse([l]) == [l];
  }

  lemma ReplayLone(stored: string, read: string)
    requires InsertPath(stored) == [read]
    ensures Trie.Covered(Trie.Terminals(Replay(Trie.Empty, [stored])), [read])
  {
    Trie.EmptyTerminals(Trie.Empty);
    ReplayCovers(Trie.Empty, [stored]);
    NamedZonesStep(InsertPath, [stored]);
    assert NamedZones(InsertPath, [stored][..0]) == {};
    assert Trie.Terminals(Trie.Empty) + NamedZones(InsertPath, [stored]) == {[read]};
    LoneMinimal([read]);
    assert [read] <= [read] && [read] in {[read]};
  }

  /** The process-wide matcher. */
  class Installed {
    var active: Matcher?

    constructor ()
      ensures active == null
    {
      active := null;
    }

    /** Install `next`, or replay it into the active matcher. */
    method InstallCompiled(next: Matcher, merge: bool) returns (count: nat, fingerprint: Digest.u64)
      requires next.Valid() && next.Finalized() && next != active
      requires active != null ==> active.Valid()
      modifies this, active
      ensures active != null && active.Valid() && active.Finalized()
      ensures count == active.count && fingerprint == active.fingerprint
      ensures !merge || old(active) == null ==> active == next && next.root == old(next.root)
      ensures merge && old(active) != null ==>
                && active == old(active) && next.root == old(next.root)
                && Trie.Terminals(active.root) ==
                   Trie.Minimal(old(Trie.Terminals(active.root)) + ReadBack(next.root))
    {
      if merge && active != null {
        var existing: Matcher := active;
        WalkableRoot(next.root);
        var names := WalkTerminals(next.root, "", []);
        ghost var before := existing.root;
        for i := 0 to |names|
          invariant existing.Valid() && existing == active == old(active) && next.root == old(next.root)
          invariant existing.root == Replay(before, names[..i])
        {
          assert names[..i + 1][..i] == names[..i];
          existing.Insert(names[i]);
        }
        assert names[..|names|] == names;
        MergedTerminals(before, next.root, names);
        existing.Finalize();
        return existing.count, existing.fingerprint;
      }
      count, fingerprint := next.count, next.fingerprint;
      active := next;
    }
  }
}
