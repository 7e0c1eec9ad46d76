/** The blocklist matcher: names in, verdicts out, with a count and a fingerprint of the set. */
module Blocklist {
  import opened Sequences
  import opened Names
  import Trie
  import Digest

  type Node = Trie.Node
  type Mask = Trie.Mask

  /** Every stored path is a list of labels. */
  ghost predicate WellNamed(t: Node) {
    forall p :: p in Trie.Terminals(t) ==> IsPath(p)
  }

  ghost predicate ValidRoot(t: Node) { Trie.IsRoot(t) && WellNamed(t) }

  /** Insert a name; an empty one is ignored. */
  function InsertName(t: Node, domain: string, mask: Mask): Node {
    var path := InsertPath(domain);
    if path == [] then t else Trie.Insert(t, path, mask)
  }

  /** The terminals once the path is inserted; the empty path is not. */
  ghost function Absorbed(s: set<Path>, p: Path): set<Path> { if p == [] then s else Trie.Absorb(s, p) }

  lemma InsertNameValid(t: Node, domain: string, mask: Mask)
    requires ValidRoot(t)
    ensures ValidRoot(InsertName(t, domain, mask))
    ensures Trie.Terminals(InsertName(t, domain, mask)) == Absorbed(Trie.Terminals(t), InsertPath(domain))
  {
    var path := InsertPath(domain);
    InsertPathIsLabels(domain);
    if path != [] {
      Trie.InsertCanonical(t, path, mask);
      Trie.InsertAbsorbs(t, path, mask);
    }
  }

  // ---- Names of a trie ----

  /** The names that terminate under `prefix`. */
  ghost function NamesUnder(t: Node, prefix: Path): set<string> {
    set p | p in Trie.Terminals(t) :: NameOf(prefix + p)
  }

  /** The canonical set of blocked names. */
  ghost function BlockedNames(t: Node): set<string> { NamesUnder(t, []) }

  lemma NameOfSnoc(prefix: Path, l: string)
    requires IsPath(prefix) && l != ""
    ensures NameOf(prefix + [l]) == if NameOf(prefix) == "" then l else l + [DOT] + NameOf(prefix)
    ensures NameOf(prefix) == "" <==> prefix == []
  {
    ReverseLabels(prefix);
    JoinEmptyOnlyIfNone(Reverse(prefix), DOT);
    ReverseConcat(prefix, [l]);
    assert Reverse([l]) == [l];
    if prefix != [] {
      assert ([l] + Reverse(prefix))[1..] == Reverse(prefix);
    }
  }

  /** `out` lists the set `names`, each once. */
  ghost predicate Lists(out: seq<string>, names: set<string>) {
    Digest.Distinct(out) && forall n :: n in out <==> n in names
  }

  lemma ListsConcat(a: seq<string>, s: set<string>, b: seq<string>, t: set<string>)
    requires Lists(a, s) && Lists(b, t) && s !! t
    ensures Lists(a + b, s + t)
  {
    forall i, j | 0 <= i < j < |a + b| ensures (a + b)[i] != (a + b)[j] {
      if i < |a| <= j { assert a[i] in s && b[j - |a|] in t; }
    }
  }

  /** Every path below, prefixed, is a list of labels. */
  ghost predicate NamedUnder(t: Node, prefix: Path) {
    forall p :: p in Trie.Terminals(t) ==> IsPath(prefix + p)
  }

  lemma ChildNames(t: Node, prefix: Path, l: string, n: string)
    requires !t.terminal && l in t.children
    ensures n in NamesUnder(t.children[l], prefix + [l]) ==> n in NamesUnder(t, prefix)
  {
    if n in NamesUnder(t.children[l], prefix + [l]) {
      var p :| p in Trie.Terminals(t.children[l]) && n == NameOf(prefix + [l] + p);
      Trie.TerminalsAt(t, [l] + p);
      assert prefix + [l] + p == prefix + ([l] + p);
    }
  }

  lemma ChildNamed(t: Node, prefix: Path, l: string)
    requires !t.terminal && l in t.children && NamedUnder(t, prefix)
    ensures NamedUnder(t.children[l], prefix + [l])
  {
    forall p | p in Trie.Terminals(t.children[l]) ensures IsPath(prefix + [l] + p) {
      Trie.TerminalsAt(t, [l] + p);
      assert prefix + [l] + p == prefix + ([l] + p);
    }
  }

  /** Names found under different children differ. */
  lemma ChildrenDisjoint(t: Node, prefix: Path, l: string, k: string)
    requires !t.terminal && l in t.children && k in t.children && l != k && NamedUnder(t, prefix)
    ensures NamesUnder(t.children[l], prefix + [l]) !! NamesUnder(t.children[k], prefix + [k])
  {
    ChildNamed(t, prefix, l);
    ChildNamed(t, prefix, k);
    forall n | n in NamesUnder(t.children[l], prefix + [l]) && n in NamesUnder(t.children[k], prefix + [k])
      ensures false
    {
      var p :| p in Trie.Terminals(t.children[l]) && n == NameOf(prefix + [l] + p);
      var q :| q in Trie.Terminals(t.children[k]) && n == NameOf(prefix + [k] + q);
      assert (prefix + [l] + p)[|prefix|] == l && (prefix + [k] + q)[|prefix|] == k;
      NameOfInjective(prefix + [l] + p, prefix + [k] + q);
    }
  }

  /** The names under the children in `keys`. */
  ghost function NamesOfChildren(t: Node, prefix: Path, keys: set<string>): set<string>
    requires keys <= t.children.Keys
  {
    set l, n | l in keys && n in NamesUnder(t.children[l], prefix + [l]) :: n
  }

  lemma AllChildren(t: Node, prefix: Path)
    requires !t.terminal
    ensures NamesOfChildren(t, prefix, t.children.Keys) == NamesUnder(t, prefix)
  {
    forall n ensures n in NamesUnder(t, prefix) <==> n in NamesOfChildren(t, prefix, t.children.Keys) {
      if n in NamesUnder(t, prefix) {
        var p :| p in Trie.Terminals(t) && n == NameOf(prefix + p);
        Trie.TerminalsAt(t, p);
        assert prefix + [p[0]] + p[1..] == prefix + p;
        assert n in NamesUnder(t.children[p[0]], prefix + [p[0]]);
      }
      if n in NamesOfChildren(t, prefix, t.children.Keys) {
        var l :| l in t.children.Keys && n in NamesUnder(t.children[l], prefix + [l]);
        ChildNames(t, prefix, l, n);
      }
    }
  }

  lemma OneMoreChild(t: Node, prefix: Path, keys: set<string>, l: string)
    requires keys <= t.children.Keys && l in t.children && l !in keys && !t.terminal && NamedUnder(t, prefix)
    ensures NamesOfChildren(t, prefix, keys + {l}) ==
            NamesOfChildren(t, prefix, keys) + NamesUnder(t.children[l], prefix + [l])
    ensures NamesOfChildren(t, prefix, keys) !! NamesUnder(t.children[l], prefix + [l])
  {
    forall n | n in NamesOfChildren(t, prefix, keys) ensures n !in NamesUnder(t.children[l], prefix + [l]) {
      var k :| k in keys && n in NamesUnder(t.children[k], prefix + [k]);
      ChildrenDisjoint(t, prefix, l, k);
    }
  }

  lemma LabelNonEmpty(t: Node, prefix: Path, l: string)
    requires !t.terminal && l in t.children && NamedUnder(t, prefix) && Trie.Canonical(t.children[l])
    ensures l != "" && IsPath(prefix + [l]) && IsPath(prefix)
  {
    var q := Trie.CanonicalHasTerminal(t.children[l]);
    Trie.TerminalsAt(t, [l] + q);
    var p := prefix + ([l] + q);
    assert p[|prefix|] == l;
    forall i | 0 <= i < |prefix + [l]| ensures (prefix + [l])[i] != "" && DOT !in (prefix + [l])[i] {
      assert (prefix + [l])[i] == p[i];
    }
    forall i | 0 <= i < |prefix| ensures prefix[i] != "" && DOT !in prefix[i] {
      assert prefix[i] == p[i];
    }
  }

  lemma OwnName(t: Node, prefix: Path)
    requires t.terminal
    ensures NamesUnder(t, prefix) == {NameOf(prefix)} && Lists([NameOf(prefix)], NamesUnder(t, prefix))
  {
    assert prefix + [] == prefix;
  }

  ghost predicate Walkable(t: Node, prefix: Path) {
    NamedUnder(t, prefix) && forall l :: l in t.children ==> Trie.Canonical(t.children[l])
  }

  /** One step down: the child is walkable, and its suffix is its path's name. */
  lemma StepDown(t: Node, suffix: string, prefix: Path, l: string)
    requires !t.terminal && Walkable(t, prefix) && suffix == NameOf(prefix) && l in t.children
    ensures Walkable(t.children[l], prefix + [l])
    ensures NameOf(prefix + [l]) == if suffix == "" then l else l + [DOT] + suffix
  {
    LabelNonEmpty(t, prefix, l);
    NameOfSnoc(prefix, l);
    ChildNamed(t, prefix, l);
  }

  /** One child's list joins the list of those before it. */
  lemma JoinLists(t: Node, prefix: Path, done: set<string>, l: string, out: seq<string>, below: seq<string>)
    requires !t.terminal && Walkable(t, prefix) && done <= t.children.Keys && l in t.children && l !in done
    requires Lists(out, NamesOfChildren(t, prefix, done)) && Lists(below, NamesUnder(t.children[l], prefix + [l]))
    ensures Lists(out + below, NamesOfChildren(t, prefix, done + {l}))
  {
    OneMoreChild(t, prefix, done, l);
    ListsConcat(out, NamesOfChildren(t, prefix, done), below, NamesUnder(t.children[l], prefix + [l]));
  }

  /** Visit every terminal, children in any order, growing the dotted suffix on the way down. */
  method WalkTerminals(t: Node, suffix: string, ghost prefix: Path) returns (out: seq<string>)
    requires Walkable(t, prefix) && suffix == NameOf(prefix)
    ensures Lists(out, NamesUnder(t, prefix))
    decreases t, 2
  {
    if t.terminal {
      OwnName(t, prefix);
      return [suffix];
    }
    out := WalkChildren(t, suffix, prefix);
    AllChildren(t, prefix);
  }

  /** The names under all children but those in `todo` are listed. */
  ghost predicate Visited(t: Node, prefix: Path, todo: set<string>, out: seq<string>)
    requires !t.terminal
  {
    todo <= t.children.Keys && Lists(out, NamesOfChildren(t, prefix, t.children.Keys - todo))
  }

  method WalkChildren(t: Node, suffix: string, ghost prefix: Path) returns (out: seq<string>)
    requires !t.terminal && Walkable(t, prefix) && suffix == NameOf(prefix)
    ensures Lists(out, NamesOfChildren(t, prefix, t.children.Keys))
    decreases t, 1
  {
    out := [];
    var todo := t.children.Keys;
    NoneVisited(t, prefix);
    while todo != {}
      invariant Visited(t, prefix, todo, out)
      decreases |todo|
    {
      var l :| l in todo;
      out := WalkChild(t, suffix, prefix, l, out, todo);
      todo := todo - {l};
    }
    AllVisited(t, prefix, out);
  }

  lemma NoneVisited(t: Node, prefix: Path)
    requires !t.terminal
    ensures Visited(t, prefix, t.children.Keys, [])
  {
    assert t.children.Keys - t.children.Keys == {};
  }

  lemma AllVisited(t: Node, prefix: Path, out: seq<string>)
    requires !t.terminal && Visited(t, prefix, {}, out)
    ensures Lists(out, NamesOfChildren(t, prefix, t.children.Keys))
  {
    assert t.children.Keys - {} == t.children.Keys;
  }

  /** The terminals under one more child. */
  method WalkChild(t: Node, suffix: string, ghost prefix: Path, l: string, out: seq<string>, ghost todo: set<string>)
    returns (more: seq<string>)
    requires !t.terminal && Walkable(t, prefix) && suffix == NameOf(prefix) && l in todo && Visited(t, prefix, todo, out)
    ensures Visited(t, prefix, todo - {l}, more)
    decreases t, 0
  {
    StepDown(t, suffix, prefix, l);
    var next := if suffix == "" then l else l + [DOT] + suffix;
    var below := WalkTerminals(t.children[l], next, prefix + [l]);
    ghost var done := t.children.Keys - todo;
    JoinLists(t, prefix, done, l, out, below);
    assert done + {l} == t.children.Keys - (todo - {l});
    more := out + below;
  }

  lemma {:induction false} ListsSize(out: seq<string>, names: set<string>)
    requires Lists(out, names)
    ensures |out| == |names|
  {
    if out == [] {
      assert names == {};
    } else {
      var n := |out| - 1;
      var rest := names - {out[n]};
      forall x ensures x in out[..n] <==> x in rest {
        if x in rest { assert x in out; }
      }
      ListsSize(out[..n], rest);
    }
  }

  lemma NamesUnderSize(t: Node)
    requires WellNamed(t)
    ensures |BlockedNames(t)| == |Trie.Terminals(t)|
  {
    NameImageSize(Trie.Terminals(t));
    forall p: Path ensures [] + p == p {}
    assert BlockedNames(t) == set p | p in Trie.Terminals(t) :: NameOf(p);
  }

  lemma {:induction false} NameImageSize(s: set<Path>)
    requires forall p :: p in s ==> IsPath(p)
    ensures |set p | p in s :: NameOf(p)| == |s|
  {
    if s != {} {
      var x :| x in s;
      var rest := s - {x};
      NameImageSize(rest);
      var image, before := set p | p in s :: NameOf(p), set p | p in rest :: NameOf(p);
      assert NameOf(x) !in before by {
        forall p | p in rest && NameOf(p) == NameOf(x) ensures false { NameOfInjective(p, x); }
      }
      assert image == before + {NameOf(x)};
    }
  }

  // ---- The descent of an insertion ----

  /** The node put back under the nodes passed on the way down. */
  function Plug(above: seq<Node>, labels: Path, n: Node): Node
    requires |above| == |labels|
    decreases |above|
  {
    if above == [] then n
    else
      var k := |above| - 1;
      Plug(above[..k], labels[..k], above[k].(children := above[k].children[labels[k] := n]))
  }

  lemma PlugStep(above: seq<Node>, labels: Path, node: Node, l: string, n: Node)
    requires |above| == |labels|
    ensures Plug(above + [node], labels + [l], n) == Plug(above, labels, node.(children := node.children[l := n]))
  {
    assert (above + [node])[..|above|] == above && (labels + [l])[..|labels|] == labels;
  }

  /** Walk down the labels, creating what is missing: a terminal on the way takes the mask and ends the
      walk, else the last node becomes a childless terminal. */
  method Descend(root: Node, labels: Path, mask: Mask) returns (t: Node)
    requires !root.terminal
    ensures t == Trie.Insert(root, labels, mask)
  {
    var node := root;
    var above: seq<Node> := [];
    assert labels[0..] == labels;
    for i := 0 to |labels|
      invariant |above| == i && !node.terminal
      invariant Plug(above, labels[..i], Trie.Insert(node, labels[i..], mask)) == Trie.Insert(root, labels, mask)
    {
      var child := Trie.ChildOf(node, labels[i]);
      assert labels[i..][1..] == labels[i + 1..] && labels[..i + 1] == labels[..i] + [labels[i]];
      if child.terminal {
        child := child.(sources := child.sources + mask);
        PlugStep(above, labels[..i], node, labels[i], child);
        return Plug(above + [node], labels[..i + 1], child);
      }
      PlugStep(above, labels[..i], node, labels[i], Trie.Insert(child, labels[i + 1..], mask));
      above, node := above + [node], child;
    }
    assert labels[..|labels|] == labels && labels[|labels|..] == [];
    node := node.(terminal := true, children := map[]);
    node := node.(sources := node.sources + mask);
    t := Plug(above, labels, node);
  }

  // ---- The matcher ----

  class Matcher {
    var root: Node
    var count: nat
    var fingerprint: Digest.u64

    ghost predicate Valid() reads this { ValidRoot(root) }

    /** The stats are those of the current set. */
    ghost predicate Finalized() reads this {
      count == |Trie.Terminals(root)| && fingerprint == Digest.Fingerprint(BlockedNames(root))
    }

    constructor ()
      ensures Valid() && Finalized() && root == Trie.Empty
    {
      root, count, fingerprint := Trie.Empty, 0, 0;
      Trie.EmptyTerminals(Trie.Empty);
      assert BlockedNames(Trie.Empty) == {};
      assert Digest.Fingerprint({}) == 0;
    }

    method Insert(domain: string)
      requires Valid()
      modifies this`root
      ensures Valid() && root == InsertName(old(root), domain, {})
      ensures Trie.Terminals(root) == Absorbed(old(Trie.Terminals(root)), InsertPath(domain))
    {
      InsertNameValid(root, domain, {});
      var labels := InsertPath(domain);
      if labels == [] { return; }
      root := Descend(root, labels, {});
    }

    method InsertWithSource(domain: string, mask: Mask)
      requires Valid()
      modifies this`root
      ensures Valid() && root == InsertName(old(root), domain, mask)
      ensures Trie.Terminals(root) == Absorbed(old(Trie.Terminals(root)), InsertPath(domain))
    {
      InsertNameValid(root, domain, mask);
      var labels := InsertPath(domain);
      if labels == [] { return; }
      root := Descend(root, labels, mask);
    }

    /** Recompute the stats from the canonical set, whatever order the walk takes. */
    method Finalize()
      requires Valid()
      modifies this`count, this`fingerprint
      ensures Finalized()
    {
      WalkableRoot(root);
      var names := WalkTerminals(root, "", []);
      count, fingerprint := Digest.Summarize(names);
      Digest.XorListIsSet(Digest.HashName, names);
      assert Digest.Elements(names) == BlockedNames(root);
      ListsSize(names, BlockedNames(root));
      NamesUnderSize(root);
    }

    /** Walk the borrowed labels; the first terminal met blocks. */
    method IsBlocked(domain: string) returns (blocked: bool)
      requires Valid()
      ensures blocked <==> Trie.Covered(Trie.Terminals(root), WalkPath(domain))
    {
      blocked := FirstTerminal(root, WalkPath(domain));
    }

    /** The mask of the covering terminal, or none. */
    method SourceMask(domain: string) returns (mask: Mask)
      requires Valid()
      ensures mask == Trie.MaskOn(root, WalkPath(domain))
    {
      mask := FirstMask(root, WalkPath(domain));
    }
  }

  /** Walk down the labels until a terminal, a missing child or the last label. */
  method FirstTerminal(root: Node, labels: Path) returns (blocked: bool)
    requires !root.terminal
    ensures blocked <==> Trie.Covered(Trie.Terminals(root), labels)
  {
    var node := root;
    var i := 0;
    assert labels[0..] == labels;
    while i < |labels|
      invariant 0 <= i <= |labels| && !node.terminal
      invariant Trie.Covered(Trie.Terminals(root), labels) <==> Trie.Covered(Trie.Terminals(node), labels[i..])
    {
      Trie.CoveredBelow(node, labels[i..]);
      assert labels[i..][1..] == labels[i + 1..] && [] <= labels[i + 1..];
      if labels[i] !in node.children { return false; }
      var child := node.children[labels[i]];
      if child.terminal {
        assert [] in Trie.Terminals(child);
        return true;
      }
      node := child;
      i := i + 1;
    }
    NothingCoversRoot(node);
    blocked := i > 0 && node.terminal;
  }

  method FirstMask(root: Node, labels: Path) returns (mask: Mask)
    requires !root.terminal && root.sources == {}
    ensures mask == Trie.MaskOn(root, labels)
  {
    var node := root;
    var i := 0;
    assert labels[0..] == labels;
    while i < |labels|
      invariant 0 <= i <= |labels| && !node.terminal && (i == 0 ==> node == root)
      invariant Trie.MaskOn(root, labels) == Trie.MaskOn(node, labels[i..])
    {
      assert labels[i..][1..] == labels[i + 1..];
      if labels[i] !in node.children { return {}; }
      var child := node.children[labels[i]];
      if child.terminal { return child.sources; }
      node := child;
      i := i + 1;
    }
    mask := if i > 0 then node.sources else {};
  }

  lemma WalkableRoot(t: Node)
    requires ValidRoot(t)
    ensures Walkable(t, []) && NameOf([]) == ""
  {
    forall p: Path ensures [] + p == p {}
  }

  lemma NothingCoversRoot(t: Node)
    requires !t.terminal
    ensures !Trie.Covered(Trie.Terminals(t), [])
  {
    forall q | q in Trie.Terminals(t) ensures !(q <= []) { Trie.TerminalsAt(t, q); }
  }

  // ---- Whole lists ----

  /** One insert call on a raw name; the plain form carries no source bit. */
  datatype Entry = Entry(domain: string, mask: Mask)

  function Load(entries: seq<Entry>): Node {
    if entries == [] then Trie.Empty
    else InsertName(Load(entries[..|entries| - 1]), entries[|entries| - 1].domain, entries[|entries| - 1].mask)
  }

  ghost function CallsBy(f: string -> Path, entries: seq<Entry>): seq<Trie.Call> {
    if entries == [] then []
    else
      var before, last := CallsBy(f, entries[..|entries| - 1]), entries[|entries| - 1];
      if f(last.domain) == [] then before else before + [Trie.Call(f(last.domain), last.mask)]
  }

  /** The trie calls the entries amount to: those with a name left after normalisation. */
  ghost function Calls(entries: seq<Entry>): seq<Trie.Call> { CallsBy(InsertPath, entries) }

  ghost function PathsBy(f: string -> Path, entries: seq<Entry>): (r: seq<Path>)
    ensures |r| == |entries|
    ensures forall i :: 0 <= i < |entries| ==> r[i] == f(entries[i].domain)
  {
    if entries == [] then [] else PathsBy(f, entries[..|entries| - 1]) + [f(entries[|entries| - 1].domain)]
  }

  ghost function ZonesBy(f: string -> Path, entries: seq<Entry>): set<Path> {
    set p | p in PathsBy(f, entries) && p != []
  }

  /** The paths of the named entries. */
  ghost function Zones(entries: seq<Entry>): set<Path> { ZonesBy(InsertPath, entries) }

  lemma ZoneEntry(entries: seq<Entry>, p: Path) returns (i: nat)
    requires p in Zones(entries)
    ensures i < |entries| && p == InsertPath(entries[i].domain) && p != []
  {
    i :| 0 <= i < |entries| && PathsBy(InsertPath, entries)[i] == p;
  }

  lemma EntryZone(entries: seq<Entry>, i: nat)
    requires i < |entries| && InsertPath(entries[i].domain) != []
    ensures InsertPath(entries[i].domain) in Zones(entries)
  {
    assert PathsBy(InsertPath, entries)[i] in Zones(entries);
  }

  lemma {:induction false} LoadIsBuild(entries: seq<Entry>)
    ensures Trie.Proper(Calls(entries)) && Load(entries) == Trie.Build(Calls(entries))
  {
    if entries != [] {
      var before, last := entries[..|entries| - 1], entries[|entries| - 1];
      LoadIsBuild(before);
      if InsertPath(last.domain) != [] {
        assert Calls(entries)[..|Calls(entries)| - 1] == Calls(before);
      }
    }
  }

  lemma {:induction false} ZonesByCalls(f: string -> Path, entries: seq<Entry>)
    ensures Trie.Paths(CallsBy(f, entries)) == ZonesBy(f, entries)
  {
    if entries == [] {
      assert Trie.Paths(CallsBy(f, entries)) == {} == ZonesBy(f, entries);
    } else {
      var before := entries[..|entries| - 1];
      ZonesByCalls(f, before);
      var path := f(entries[|entries| - 1].domain);
      if path != [] {
        Trie.PathsStep(CallsBy(f, entries));
        assert CallsBy(f, entries)[..|CallsBy(f, entries)| - 1] == CallsBy(f, before);
      }
    }
  }

  lemma ZonesArePaths(entries: seq<Entry>)
    ensures Trie.Paths(Calls(entries)) == Zones(entries)
  {
    ZonesByCalls(InsertPath, entries);
  }

  /** After any sequence of inserts the trie is canonical, its terminals are exactly the inserted
      normalised names with no inserted proper parent zone. */
  lemma LoadIsMinimal(entries: seq<Entry>)
    ensures ValidRoot(Load(entries))
    ensures Trie.Terminals(Load(entries)) == Trie.Minimal(Zones(entries))
  {
    LoadIsBuild(entries);
    Trie.BuildIsMinimal(Calls(entries));
    ZonesArePaths(entries);
    forall p | p in Trie.Terminals(Load(entries)) ensures IsPath(p) {
      var i := ZoneEntry(entries, p);
      InsertPathIsLabels(entries[i].domain);
    }
  }

  /** A lookup is covered exactly when some inserted zone is a prefix of the walked path. */
  lemma CoveredByZones(entries: seq<Entry>, p: Path)
    ensures Trie.Covered(Trie.Terminals(Load(entries)), p) <==> Trie.Covered(Zones(entries), p)
  {
    LoadIsMinimal(entries);
    Trie.MinimalCovers(Zones(entries), p);
  }

  /** Some inserted name, normalised, is the name `d`, normalised, or a parent zone of it. */
  ghost predicate HasParentZone(entries: seq<Entry>, d: string) {
    exists i :: 0 <= i < |entries| && Normalize(entries[i].domain) != "" &&
                IsZoneOf(Normalize(entries[i].domain), Normalize(d))
  }

  lemma ZoneOfNames(x: string, d: string)
    requires Normalize(x) != ""
    ensures IsZoneOf(Normalize(x), Normalize(d)) <==> InsertPath(x) != [] && InsertPath(x) <= InsertPath(d)
  {
    InsertPathIsLabels(x);
    InsertPathIsLabels(d);
    NameOfInsertPath(x);
    NameOfInsertPath(d);
    if InsertPath(x) <= InsertPath(d) { PrefixIsZone(InsertPath(x), InsertPath(d)); }
    if IsZoneOf(Normalize(x), Normalize(d)) { ZoneIsPrefix(InsertPath(x), InsertPath(d)); }
  }

  /** For every name whose folding is unambiguous, it is blocked if and only if an inserted name equals
      it or is a parent zone of it, after normalisation. */
  lemma BlockedWhenSafe(entries: seq<Entry>, d: string)
    requires SigmaSafe(Trimmed(d))
    ensures Trie.Covered(Trie.Terminals(Load(entries)), WalkPath(d)) <==> HasParentZone(entries, d)
  {
    WalksAgreeIff(d);
    CoveredByZones(entries, WalkPath(d));
    if Trie.Covered(Zones(entries), InsertPath(d)) {
      var q :| q in Zones(entries) && q <= InsertPath(d);
      var i := ZoneEntry(entries, q);
      InsertPathIsLabels(entries[i].domain);
      ZoneOfNames(entries[i].domain, d);
    }
    if HasParentZone(entries, d) {
      var i :| 0 <= i < |entries| && Normalize(entries[i].domain) != "" &&
               IsZoneOf(Normalize(entries[i].domain), Normalize(d));
      ZoneOfNames(entries[i].domain, d);
      EntryZone(entries, i);
    }
  }

  /** Every other name is missed by its own lookup, right after it alone was inserted. */
  lemma LostWhenUnsafe(d: string)
    requires !SigmaSafe(Trimmed(d))
    ensures HasParentZone([Entry(d, {})], d)
    ensures !Trie.Covered(Trie.Terminals(Load([Entry(d, {})])), WalkPath(d))
  {
    var entries := [Entry(d, {})];
    WalksAgreeIff(d);
    SameLengthWalks(d);
    InsertPathIsLabels(d);
    assert entries[0].domain == d && Normalize(d) != "";
    CoveredByZones(entries, WalkPath(d));
    if Trie.Covered(Zones(entries), WalkPath(d)) {
      var q :| q in Zones(entries) && q <= WalkPath(d);
      var i := ZoneEntry(entries, q);
      assert false;
    }
  }

  /** The verdict, exactly. Whatever was inserted, a name is blocked if and only if an inserted name
      equals it or is a parent zone of it: this holds for a name if and only if its folding is
      unambiguous. */
  lemma BlockedExactly(d: string)
    ensures (forall entries :: Trie.Covered(Trie.Terminals(Load(entries)), WalkPath(d)) <==> HasParentZone(entries, d))
            <==> SigmaSafe(Trimmed(d))
  {
    if SigmaSafe(Trimmed(d)) {
      forall entries
        ensures Trie.Covered(Trie.Terminals(Load(entries)), WalkPath(d)) <==> HasParentZone(entries, d)
      {
        BlockedWhenSafe(entries, d);
      }
    } else {
      LostWhenUnsafe(d);
    }
  }

  /** Such a name: a capital sigma between a letter and a dot that a letter follows. */
  lemma SigmaNameNotBlocked(d: string)
    requires d == ['A', SIGMA, '.', 'c']
    ensures HasParentZone([Entry(d, {})], d)
    ensures !Trie.Covered(Trie.Terminals(Load([Entry(d, {})])), WalkPath(d))
  {
    SigmaNameIsLost(d);
    LostWhenUnsafe(d);
  }

  lemma SameLengthWalks(d: string)
    ensures |WalkPath(d)| == |InsertPath(d)|
  {
    var s := Trimmed(d);
    WalkPathIsByLabel(d);
    InsertPathIsLabels(d);
    LowerByLabelShape(s);
    PieceShapes(LowerByLabel(s), Lower(s));
  }

  // ---- Case, and plain names end to end ----

  /** The same calls, up to the case of ASCII letters. */
  ghost predicate SameCalls(xs: seq<Entry>, ys: seq<Entry>) {
    |xs| == |ys| && forall i :: 0 <= i < |xs| ==> SameButCase(xs[i].domain, ys[i].domain) && xs[i].mask == ys[i].mask
  }

  /** The case of ASCII letters changes neither the list that is built nor any verdict. */
  lemma {:induction false} CaseChangesNothing(xs: seq<Entry>, ys: seq<Entry>, a: string, b: string)
    requires SameCalls(xs, ys) && SameButCase(a, b)
    ensures Load(xs) == Load(ys)
    ensures Trie.Covered(Trie.Terminals(Load(xs)), WalkPath(a)) <==> Trie.Covered(Trie.Terminals(Load(ys)), WalkPath(b))
    decreases |xs|
  {
    CaseDoesNotMatter(a, b);
    if xs != [] {
      var n := |xs| - 1;
      CaseChangesNothing(xs[..n], ys[..n], a, b);
      CaseDoesNotMatter(xs[n].domain, ys[n].domain);
    }
  }

  /** For ASCII names, in any case: blocked if and only if some inserted name is the name asked for, or
      the name asked for ends in a dot and that name. */
  lemma AsciiBlockedExactly(entries: seq<Entry>, d: string)
    requires AsciiName(d) && forall i :: 0 <= i < |entries| ==> AsciiName(entries[i].domain)
    ensures Trie.Covered(Trie.Terminals(Load(entries)), WalkPath(d)) <==>
            exists i :: 0 <= i < |entries| && AtOrUnder(d, entries[i].domain)
  {
    AsciiNormalizes(d);
    BlockedWhenSafe(entries, d);
    forall i | 0 <= i < |entries|
      ensures Normalize(entries[i].domain) != "" &&
              (IsZoneOf(Normalize(entries[i].domain), Normalize(d)) <==> AtOrUnder(d, entries[i].domain))
    {
      AsciiNormalizes(entries[i].domain);
      LowerChars(entries[i].domain);
      AsciiZoneIff(d, entries[i].domain);
    }
  }

  // ---- The set decides everything ----

  /** Lists that block the same names, in whatever order, with whatever repetitions and subsumed
      extras, build the same trie, the same set, the same count and the same fingerprint. */
  lemma SameBlockingSameMatcher(xs: seq<Entry>, ys: seq<Entry>)
    requires forall p :: Trie.Covered(Zones(xs), p) <==> Trie.Covered(Zones(ys), p)
    ensures Trie.Erase(Load(xs)) == Trie.Erase(Load(ys))
    ensures Trie.Terminals(Load(xs)) == Trie.Terminals(Load(ys))
    ensures Digest.Fingerprint(BlockedNames(Load(xs))) == Digest.Fingerprint(BlockedNames(Load(ys)))
  {
    LoadIsBuild(xs);
    LoadIsBuild(ys);
    ZonesArePaths(xs);
    ZonesArePaths(ys);
    Trie.SameBlockingSameTrie(Calls(xs), Calls(ys));
  }

  /** Every name of `xs` occurs in `ys`. */
  ghost predicate NamesAmong(xs: seq<Entry>, ys: seq<Entry>) {
    forall x :: x in xs ==> exists y :: y in ys && y.domain == x.domain
  }

  lemma NameAmong(xs: seq<Entry>, ys: seq<Entry>, i: nat) returns (j: nat)
    requires NamesAmong(xs, ys) && i < |xs|
    ensures j < |ys| && ys[j].domain == xs[i].domain
  {
    assert xs[i] in xs;
    var y :| y in ys && y.domain == xs[i].domain;
    j :| 0 <= j < |ys| && ys[j] == y;
  }

  lemma ZonesAmong(xs: seq<Entry>, ys: seq<Entry>)
    requires NamesAmong(xs, ys)
    ensures Zones(xs) <= Zones(ys)
  {
    forall p | p in Zones(xs) ensures p in Zones(ys) {
      var i := ZoneEntry(xs, p);
      var j := NameAmong(xs, ys, i);
      EntryZone(ys, j);
    }
  }

  /** Reordering and repeating names changes nothing. */
  lemma OrderIrrelevant(xs: seq<Entry>, ys: seq<Entry>)
    requires NamesAmong(xs, ys) && NamesAmong(ys, xs)
    ensures Trie.Erase(Load(xs)) == Trie.Erase(Load(ys))
    ensures Digest.Fingerprint(BlockedNames(Load(xs))) == Digest.Fingerprint(BlockedNames(Load(ys)))
  {
    ZonesAmong(xs, ys);
    ZonesAmong(ys, xs);
    SameBlockingSameMatcher(xs, ys);
  }

  /** Each terminal's mask is the OR of the masks of all calls at or beneath it, from the call that
      made it terminal onward; a name with a source bit is blocked. */
  lemma LoadMasks(entries: seq<Entry>, p: Path)
    ensures p in Trie.Terminals(Load(entries)) ==>
            Trie.MaskOn(Load(entries), p) == Trie.Corroboration(Calls(entries), p)
    ensures Trie.MaskOn(Load(entries), p) != {} ==> Trie.Covered(Trie.Terminals(Load(entries)), p)
  {
    LoadIsBuild(entries);
    Trie.BuildIsMinimal(Calls(entries));
    if p in Trie.Terminals(Load(entries)) { Trie.MaskIsCorroboration(Calls(entries), p); }
    if !Trie.Covered(Trie.Terminals(Load(entries)), p) { Trie.UncoveredMask(Load(entries), p); }
  }
}
