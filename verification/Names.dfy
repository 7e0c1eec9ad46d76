/** Domain names as the blocklist reads them: trimming, case folding, and the two walks over a
    name's labels, one through the normalised string and one over borrowed labels. */
module Names {
  import opened Sequences

  const DOT: char := '.'

  /** Unicode White_Space. */
  predicate IsSpace(c: char) {
    '\t' <= c <= '\r' || c == ' ' || c == '\U{0085}' || c == '\U{00A0}' || c == '\U{1680}' ||
    '\U{2000}' <= c <= '\U{200A}' || c == '\U{2028}' || c == '\U{2029}' || c == '\U{202F}' ||
    c == '\U{205F}' || c == '\U{3000}'
  }

  function TrimStart(s: string): string {
    if s != "" && IsSpace(s[0]) then TrimStart(s[1..]) else s
  }

  function TrimEnd(s: string): string {
    if s != "" && IsSpace(s[|s| - 1]) then TrimEnd(s[..|s| - 1]) else s
  }

  function Trim(s: string): string { TrimEnd(TrimStart(s)) }

  function TrimEndDots(s: string): string {
    if s != "" && s[|s| - 1] == DOT then TrimEndDots(s[..|s| - 1]) else s
  }

  lemma {:induction false} TrimStartDrops(s: string)
    ensures |TrimStart(s)| <= |s| && TrimStart(s) == s[|s| - |TrimStart(s)|..]
  {
    if s != "" && IsSpace(s[0]) { TrimStartDrops(s[1..]); }
  }

  lemma {:induction false} TrimEndDrops(s: string)
    ensures TrimEnd(s) <= s
  {
    if s != "" && IsSpace(s[|s| - 1]) { TrimEndDrops(s[..|s| - 1]); }
  }

  lemma {:induction false} TrimEndDotsDrops(s: string)
    ensures TrimEndDots(s) <= s
  {
    if s != "" && s[|s| - 1] == DOT { TrimEndDotsDrops(s[..|s| - 1]); }
  }

  // ---- The order of names ----

  /** The order of strings: the first differing character decides, a prefix comes first. */
  predicate NameLe(a: string, b: string) {
    if a == "" then true
    else if b == "" then false
    else a[0] < b[0] || (a[0] == b[0] && NameLe(a[1..], b[1..]))
  }

  lemma {:induction false} NameLeTotal(a: string, b: string)
    ensures NameLe(a, b) || NameLe(b, a)
    ensures NameLe(a, b) && NameLe(b, a) ==> a == b
  {
    if a != "" && b != "" {
      NameLeTotal(a[1..], b[1..]);
      assert a == [a[0]] + a[1..] && b == [b[0]] + b[1..];
    }
  }

  lemma {:induction false} NameLeTransitive(a: string, b: string, c: string)
    requires NameLe(a, b) && NameLe(b, c)
    ensures NameLe(a, c)
  {
    if a != "" && b != "" && c != "" && a[0] == b[0] && b[0] == c[0] {
      NameLeTransitive(a[1..], b[1..], c[1..]);
    }
  }

  // ---- Case folding, with the one context-sensitive rule of Unicode lowercasing ----

  const SIGMA: char := '\U{03A3}'
  const SMALL_SIGMA: char := '\U{03C3}'
  const FINAL_SIGMA: char := '\U{03C2}'

  // A capital whose lower-case form is longer in UTF-8.
  const STROKE_A: char := '\U{023A}'
  const SMALL_STROKE_A: char := '\U{2C65}'

  predicate IsUpper(c: char) { 'A' <= c <= 'Z' || c == STROKE_A }

  predicate Cased(c: char) {
    IsUpper(c) || 'a' <= c <= 'z' || c == SMALL_STROKE_A ||
    c == SIGMA || c == SMALL_SIGMA || c == FINAL_SIGMA
  }

  predicate CaseIgnorable(c: char) {
    c == '\U{0027}' || c == DOT || c == ':' || c == '^' || c == '\U{0060}'
  }

  /** Skipping case-ignorable characters, the next one is cased. */
  predicate IgnorableThenCased(s: string) {
    s != "" && (if CaseIgnorable(s[0]) then IgnorableThenCased(s[1..]) else Cased(s[0]))
  }

  /** A capital sigma at `i` is word-final: a cased character before it, none after it. */
  predicate WordFinal(s: string, i: nat)
    requires i < |s|
  {
    IgnorableThenCased(Reverse(s[..i])) && !IgnorableThenCased(s[i + 1..])
  }

  function LowerChar(c: char): char {
    if c == STROKE_A then SMALL_STROKE_A else if IsUpper(c) then (c as int + 32) as char else c
  }

  function LowerAt(s: string, i: nat): char
    requires i < |s|
  {
    if s[i] != SIGMA then LowerChar(s[i])
    else if WordFinal(s, i) then FINAL_SIGMA
    else SMALL_SIGMA
  }

  function LowerFrom(s: string, i: nat): (r: string)
    requires i <= |s|
    ensures |r| == |s| - i
    decreases |s| - i
  {
    if i == |s| then "" else [LowerAt(s, i)] + LowerFrom(s, i + 1)
  }

  function Lower(s: string): string { LowerFrom(s, 0) }

  lemma {:induction false} LowerFromAt(s: string, i: nat, k: nat)
    requires i <= k < |s|
    ensures LowerFrom(s, i)[k - i] == LowerAt(s, k)
    decreases |s| - i
  {
    if i < k { LowerFromAt(s, i + 1, k); }
  }

  lemma LowerChars(s: string)
    ensures |Lower(s)| == |s|
    ensures forall i :: 0 <= i < |s| ==> Lower(s)[i] == LowerAt(s, i)
  {
    forall i | 0 <= i < |s| ensures Lower(s)[i] == LowerAt(s, i) { LowerFromAt(s, 0, i); }
  }

  /** Folding touches no dot and leaves nothing to fold. */
  lemma LowerFixes(s: string)
    ensures forall i :: 0 <= i < |s| ==> (Lower(s)[i] == DOT <==> s[i] == DOT)
    ensures forall i :: 0 <= i < |s| ==> (IsSpace(Lower(s)[i]) <==> IsSpace(s[i]))
    ensures Lower(Lower(s)) == Lower(s)
  {
    var r := Lower(s);
    LowerChars(s);
    LowerChars(r);
    forall i | 0 <= i < |s| ensures r[i] != SIGMA && LowerChar(r[i]) == r[i] {}
  }

  /** A plain label, as the lookup's fast path tests it, needs no folding. */
  predicate IsPlain(l: string) {
    forall i :: 0 <= i < |l| ==> l[i] < '\U{0080}' && !IsUpper(l[i])
  }

  lemma PlainIsLower(l: string)
    requires IsPlain(l)
    ensures Lower(l) == l
  {
    LowerChars(l);
  }

  // ---- The two walks ----

  function Trimmed(d: string): string { TrimEndDots(Trim(d)) }

  /** The labels of the normalised name, leftmost first. */
  function NormLabels(d: string): seq<string> {
    NonEmpty(Split(Lower(Trimmed(d)), DOT))
  }

  function Normalize(d: string): string { Join(NormLabels(d), DOT) }

  /** A path into the trie: labels, top-level first. */
  type Path = seq<string>

  /** The path the insert side walks: the normalised string split again, from the right. */
  function InsertPath(d: string): Path {
    if Normalize(d) == "" then [] else Reverse(Split(Normalize(d), DOT))
  }

  function FoldLabel(l: string): string {
    if IsPlain(l) then l else Lower(l)
  }

  function FoldAll(ls: seq<string>): (r: seq<string>)
    ensures |r| == |ls|
  {
    if ls == [] then [] else [FoldLabel(ls[0])] + FoldAll(ls[1..])
  }

  lemma {:induction false} FoldAt(ls: seq<string>)
    ensures forall i :: 0 <= i < |ls| ==> FoldAll(ls)[i] == FoldLabel(ls[i])
  {
    if ls != [] { FoldAt(ls[1..]); }
  }

  /** The path the lookup side walks: borrowed labels from the right, folded one by one. */
  function WalkPath(d: string): Path {
    FoldAll(NonEmpty(Reverse(Split(Trimmed(d), DOT))))
  }

  ghost predicate IsPath(p: Path) { Labels(p, DOT) }

  /** A path as a dotted name. */
  function NameOf(p: Path): string { Join(Reverse(p), DOT) }

  lemma ReverseLabels(p: Path)
    requires IsPath(p)
    ensures IsPath(Reverse(p))
  {
    ReverseAt(p);
  }

  lemma InsertPathIsLabels(d: string)
    ensures InsertPath(d) == Reverse(NormLabels(d)) && IsPath(InsertPath(d))
    ensures Normalize(d) == "" <==> InsertPath(d) == []
  {
    var ls := NormLabels(d);
    SplitLabels(Lower(Trimmed(d)), DOT);
    JoinEmptyOnlyIfNone(ls, DOT);
    if ls != [] { SplitJoin(ls, DOT); }
    ReverseLabels(ls);
  }

  lemma NameOfInsertPath(d: string)
    ensures NameOf(InsertPath(d)) == Normalize(d)
  {
    InsertPathIsLabels(d);
    ReverseTwice(NormLabels(d));
  }

  lemma NameOfInjective(p: Path, q: Path)
    requires IsPath(p) && IsPath(q) && NameOf(p) == NameOf(q)
    ensures p == q
  {
    ReverseLabels(p);
    ReverseLabels(q);
    JoinInjective(Reverse(p), Reverse(q), DOT);
    ReverseTwice(p);
    ReverseTwice(q);
  }

  // ---- When the two walks agree ----

  ghost predicate DotFree(s: string, lo: nat, hi: nat)
    requires hi <= |s|
  {
    forall k :: lo <= k < hi ==> s[k] != DOT
  }

  /** The start of the label around position `i`. */
  ghost function LabelStart(s: string, i: nat): (lo: nat)
    requires i <= |s|
    ensures lo <= i
  {
    if i == 0 || s[i - 1] == DOT then i else LabelStart(s, i - 1)
  }

  /** The end of the label around position `i`. */
  ghost function LabelEnd(s: string, i: nat): (hi: nat)
    requires i <= |s|
    ensures i <= hi <= |s|
    decreases |s| - i
  {
    if i == |s| || s[i] == DOT then i else LabelEnd(s, i + 1)
  }

  /** The sigma at `i`, if there is one, is word-final in its label exactly when it is in the name. */
  ghost predicate SafeAt(s: string, i: nat)
    requires i < |s|
  {
    s[i] == SIGMA ==>
      var lo := LabelStart(s, i);
      (WordFinal(s[lo..LabelEnd(s, i)], i - lo) <==> WordFinal(s, i))
  }

  /** Every capital sigma is word-final in its label exactly when it is word-final in the name. */
  ghost predicate SigmaSafe(s: string) { forall i :: 0 <= i < |s| ==> SafeAt(s, i) }

  lemma {:induction false} LabelStartIs(s: string, i: nat)
    requires i <= |s|
    ensures DotFree(s, LabelStart(s, i), i) && (LabelStart(s, i) == 0 || s[LabelStart(s, i) - 1] == DOT)
  {
    if i > 0 && s[i - 1] != DOT { LabelStartIs(s, i - 1); }
  }

  lemma {:induction false} LabelEndIs(s: string, i: nat)
    requires i <= |s|
    ensures DotFree(s, i, LabelEnd(s, i)) && (LabelEnd(s, i) == |s| || s[LabelEnd(s, i)] == DOT)
    decreases |s| - i
  {
    if i < |s| && s[i] != DOT { LabelEndIs(s, i + 1); }
  }

  lemma LabelUnique(s: string, i: nat, lo: nat, hi: nat)
    requires lo <= i <= hi <= |s| && DotFree(s, lo, hi)
    requires (lo == 0 || s[lo - 1] == DOT) && (hi == |s| || s[hi] == DOT)
    ensures LabelStart(s, i) == lo && LabelEnd(s, i) == hi
  {
    LabelStartIs(s, i);
    LabelEndIs(s, i);
  }

  /** The name folded label by label. */
  ghost function LowerByLabel(s: string): string { Join(FoldAll(Split(s, DOT)), DOT) }

  lemma FoldIsLower(l: string)
    ensures FoldLabel(l) == Lower(l)
  {
    if IsPlain(l) { PlainIsLower(l); }
  }

  /** The character at `i`, folded inside the stretch `lo..hi`. */
  ghost function LowerWithin(s: string, lo: nat, hi: nat, i: nat): char
    requires lo <= i < hi <= |s|
  {
    LowerAt(s[lo..hi], i - lo)
  }

  lemma LowerWithinTail(s: string, k: nat, lo: nat, hi: nat, i: nat)
    requires k <= |s| && lo <= i < hi <= |s| - k
    ensures LowerWithin(s[k..], lo, hi, i) == LowerWithin(s, k + lo, k + hi, k + i)
  {
    TailSlice(s, k, lo, hi);
  }

  /** The character at `i`, folded inside its label. */
  ghost function LowerInLabel(s: string, i: nat): char
    requires i < |s|
  {
    if s[i] == DOT then DOT else LowerWithin(s, LabelStart(s, i), LabelEnd(s, i), i)
  }

  lemma OneLabel(s: string)
    requires DOT !in s
    ensures LowerByLabel(s) == Lower(s)
  {
    SplitPrepend(s, [], DOT);
    assert s + [] == s;
    assert Split(s, DOT) == [s];
    FoldIsLower(s);
    assert FoldAll([s]) == [Lower(s)];
  }

  lemma ConsLabel(p: string, rest: string)
    requires DOT !in p
    ensures LowerByLabel(p + [DOT] + rest) == Lower(p) + [DOT] + LowerByLabel(rest)
  {
    var s := p + [DOT] + rest;
    var pieces := Split(rest, DOT);
    SplitPrepend(p, [DOT] + rest, DOT);
    assert s == p + ([DOT] + rest) && ([DOT] + rest)[1..] == rest && p + [] == p;
    assert Split(s, DOT) == [p] + pieces;
    FoldIsLower(p);
    assert ([p] + pieces)[1..] == pieces;
    assert FoldAll([p] + pieces) == [Lower(p)] + FoldAll(pieces);
    assert ([Lower(p)] + FoldAll(pieces))[1..] == FoldAll(pieces);
  }

  lemma LabelInFirst(s: string, n: nat, i: nat)
    requires n == LabelEnd(s, 0) && i < n
    ensures LowerInLabel(s, i) == LowerAt(s[..n], i)
  {
    LabelEndIs(s, 0);
    LabelUnique(s, i, 0, n);
    assert s[0..n] == s[..n];
  }

  lemma LabelAfterFirst(s: string, n: nat, i: nat)
    requires n < i < |s| && s[n] == DOT
    ensures LowerInLabel(s, i) == LowerInLabel(s[n + 1..], i - n - 1)
  {
    if s[i] != DOT {
      var lo, hi := LabelStart(s[n + 1..], i - n - 1), LabelEnd(s[n + 1..], i - n - 1);
      LabelShift(s, n, i, lo, hi);
      LowerWithinTail(s, n + 1, lo, hi, i - n - 1);
    }
  }

  lemma LabelShift(s: string, n: nat, i: nat, lo: nat, hi: nat)
    requires n < i < |s| && s[n] == DOT
    requires lo == LabelStart(s[n + 1..], i - n - 1) && hi == LabelEnd(s[n + 1..], i - n - 1)
    ensures LabelStart(s, i) == n + 1 + lo && LabelEnd(s, i) == n + 1 + hi
  {
    var rest := s[n + 1..];
    LabelStartIs(rest, i - n - 1);
    LabelEndIs(rest, i - n - 1);
    forall k | n + 1 + lo <= k < n + 1 + hi ensures s[k] != DOT {
      assert s[k] == rest[k - n - 1];
    }
    LabelUnique(s, i, n + 1 + lo, n + 1 + hi);
  }

  /** The characters of a name folded label by label: those of the first label, the dot, the rest. */
  lemma LowerFirstLabel(s: string, n: nat, low: string, rest: string, i: nat)
    requires n == LabelEnd(s, 0) < |s| && i < |s|
    requires |low| == n && (i < n ==> low[i] == LowerAt(s[..n], i))
    requires |rest| == |s| - n - 1 && (i > n ==> rest[i - n - 1] == LowerInLabel(s[n + 1..], i - n - 1))
    ensures |low + [DOT] + rest| == |s| && (low + [DOT] + rest)[i] == LowerInLabel(s, i)
  {
    LabelEndIs(s, 0);
    if i < n {
      LabelInFirst(s, n, i);
    } else if i > n {
      LabelAfterFirst(s, n, i);
    }
  }

  lemma LowerCharAt(s: string, i: nat)
    requires i < |s|
    ensures |Lower(s)| == |s| && Lower(s)[i] == LowerAt(s, i)
  {
    LowerFromAt(s, 0, i);
  }

  lemma {:induction false} LowerByLabelChar(s: string, i: nat)
    requires i < |s|
    ensures |LowerByLabel(s)| == |s| && LowerByLabel(s)[i] == LowerInLabel(s, i)
    decreases |s|
  {
    var n := LabelEnd(s, 0);
    var first := s[..n];
    LabelEndIs(s, 0);
    if n == |s| {
      assert first == s;
      OneLabel(s);
      LowerCharAt(s, i);
      LabelInFirst(s, n, i);
    } else {
      var rest := s[n + 1..];
      ConsLabel(first, rest);
      assert s == first + [DOT] + rest;
      if i < n { LowerCharAt(first, i); }
      if i > n { LowerByLabelChar(rest, i - n - 1); } else { LowerByLabelLength(rest); }
      LowerFirstLabel(s, n, Lower(first), LowerByLabel(rest), i);
    }
  }

  lemma {:induction false} LowerByLabelLength(s: string)
    ensures |LowerByLabel(s)| == |s|
    decreases |s|
  {
    var n := LabelEnd(s, 0);
    var first := s[..n];
    LabelEndIs(s, 0);
    if n == |s| {
      assert first == s;
      OneLabel(s);
    } else {
      var rest := s[n + 1..];
      ConsLabel(first, rest);
      assert s == first + [DOT] + rest;
      LowerByLabelLength(rest);
    }
  }

  lemma LowerByLabelAt(s: string)
    ensures |LowerByLabel(s)| == |s|
    ensures forall i :: 0 <= i < |s| ==> LowerByLabel(s)[i] == LowerInLabel(s, i)
  {
    LowerByLabelLength(s);
    forall i | 0 <= i < |s| ensures LowerByLabel(s)[i] == LowerInLabel(s, i) { LowerByLabelChar(s, i); }
  }

  lemma FoldsAgreeAt(s: string, i: nat)
    requires i < |s|
    ensures LowerInLabel(s, i) == LowerAt(s, i) <==> SafeAt(s, i)
  {
    if s[i] != DOT {
      var lo, hi := LabelStart(s, i), LabelEnd(s, i);
      assert hi > i;
      assert s[lo..hi][i - lo] == s[i];
    }
  }

  /** Whole-name folding and label-by-label folding agree exactly when every sigma is safe. */
  lemma FoldsAgreeIff(s: string)
    ensures LowerByLabel(s) == Lower(s) <==> SigmaSafe(s)
  {
    LowerByLabelLength(s);
    LowerChars(s);
    forall i | 0 <= i < |s| ensures LowerByLabel(s)[i] == Lower(s)[i] <==> SafeAt(s, i) {
      LowerByLabelChar(s, i);
      FoldsAgreeAt(s, i);
    }
    if LowerByLabel(s) == Lower(s) {
      forall i | 0 <= i < |s| ensures SafeAt(s, i) { assert LowerByLabel(s)[i] == Lower(s)[i]; }
    }
  }

  lemma {:induction false} FoldNonEmpty(ls: seq<string>)
    ensures NonEmpty(FoldAll(ls)) == FoldAll(NonEmpty(ls))
  {
    if ls != [] {
      FoldIsLower(ls[0]);
      FoldNonEmpty(ls[1..]);
      assert FoldAll(ls)[1..] == FoldAll(ls[1..]);
      if ls[0] != "" {
        assert FoldAll([ls[0]] + NonEmpty(ls[1..])) == [FoldLabel(ls[0])] + FoldAll(NonEmpty(ls[1..]));
      }
    }
  }

  lemma SplitByLabel(s: string)
    ensures Split(LowerByLabel(s), DOT) == FoldAll(Split(s, DOT))
  {
    var pieces := Split(s, DOT);
    SplitPiecesClean(s, DOT);
    FoldAt(pieces);
    forall i | 0 <= i < |pieces| ensures DOT !in FoldAll(pieces)[i] {
      FoldIsLower(pieces[i]);
      LowerFixes(pieces[i]);
    }
    SplitJoin(FoldAll(pieces), DOT);
  }

  lemma {:induction false} FoldSnoc(a: seq<string>, l: string)
    ensures FoldAll(a + [l]) == FoldAll(a) + [FoldLabel(l)]
  {
    if a == [] {
      assert a + [l] == [l] && [l][1..] == [];
    } else {
      assert (a + [l])[1..] == a[1..] + [l];
      FoldSnoc(a[1..], l);
    }
  }

  lemma {:induction false} FoldReverse(ls: seq<string>)
    ensures FoldAll(Reverse(ls)) == Reverse(FoldAll(ls))
  {
    if ls != [] {
      FoldReverse(ls[1..]);
      FoldSnoc(Reverse(ls[1..]), ls[0]);
      assert FoldAll(ls)[1..] == FoldAll(ls[1..]);
    }
  }

  lemma WalkPathIsByLabel(d: string)
    ensures WalkPath(d) == Reverse(NonEmpty(Split(LowerByLabel(Trimmed(d)), DOT)))
  {
    var pieces := Split(Trimmed(d), DOT);
    NonEmptyReverse(pieces);
    FoldNonEmpty(pieces);
    SplitByLabel(Trimmed(d));
    var kept := NonEmpty(pieces);
    FoldReverse(kept);
  }

  /** Dots and white space stand in the same places. */
  ghost predicate SameShape(a: string, b: string) {
    |a| == |b| && forall i :: 0 <= i < |a| ==> (a[i] == DOT <==> b[i] == DOT) && (IsSpace(a[i]) <==> IsSpace(b[i]))
  }

  lemma LowerShape(s: string)
    ensures SameShape(Lower(s), s)
  {
    LowerFixes(s);
  }

  lemma LowerInLabelShape(s: string, i: nat)
    requires i < |s|
    ensures LowerInLabel(s, i) == DOT <==> s[i] == DOT
    ensures IsSpace(LowerInLabel(s, i)) <==> IsSpace(s[i])
  {
    if s[i] != DOT {
      var lo, hi := LabelStart(s, i), LabelEnd(s, i);
      assert hi > i && s[lo..hi][i - lo] == s[i];
    }
  }

  lemma LowerByLabelShape(s: string)
    ensures SameShape(LowerByLabel(s), Lower(s))
  {
    LowerByLabelAt(s);
    LowerShape(s);
    forall i | 0 <= i < |s|
      ensures LowerByLabel(s)[i] == DOT <==> s[i] == DOT
      ensures IsSpace(LowerByLabel(s)[i]) <==> IsSpace(s[i])
    {
      LowerInLabelShape(s, i);
    }
  }

  /** Pieces alike one by one. */
  ghost predicate SameShapes(xs: seq<string>, ys: seq<string>) {
    |xs| == |ys| && forall i :: 0 <= i < |xs| ==> SameShape(xs[i], ys[i])
  }

  lemma ShapeCons(c: char, x: string, d: char, y: string)
    requires SameShape([c], [d]) && SameShape(x, y)
    ensures SameShape([c] + x, [d] + y)
  {
    assert [c][0] == c && [d][0] == d;
  }

  lemma ShapeSplit(a: string, b: string)
    requires SameShape(a, b) && a != ""
    ensures SameShape(a[1..], b[1..]) && SameShape([a[0]], [b[0]]) && (a[0] == DOT <==> b[0] == DOT)
  {}

  lemma ShapesCons(x: string, xs: seq<string>, y: string, ys: seq<string>)
    requires SameShape(x, y) && SameShapes(xs, ys)
    ensures SameShapes([x] + xs, [y] + ys)
  {}

  lemma ShapesTail(xs: seq<string>, ys: seq<string>)
    requires SameShapes(xs, ys) && xs != []
    ensures SameShape(xs[0], ys[0]) && SameShapes(xs[1..], ys[1..])
  {}

  lemma {:induction false} SplitShapes(a: string, b: string)
    requires SameShape(a, b)
    ensures SameShapes(Split(a, DOT), Split(b, DOT))
  {
    if a != "" {
      ShapeSplit(a, b);
      SplitShapes(a[1..], b[1..]);
      var ra, rb := Split(a[1..], DOT), Split(b[1..], DOT);
      if a[0] == DOT {
        ShapesCons("", ra, "", rb);
      } else {
        ShapesTail(ra, rb);
        ShapeCons(a[0], ra[0], b[0], rb[0]);
        ShapesCons([a[0]] + ra[0], ra[1..], [b[0]] + rb[0], rb[1..]);
      }
    }
  }

  lemma {:induction false} NonEmptyShapes(xs: seq<string>, ys: seq<string>)
    requires SameShapes(xs, ys)
    ensures SameShapes(NonEmpty(xs), NonEmpty(ys))
  {
    if xs != [] {
      ShapesTail(xs, ys);
      NonEmptyShapes(xs[1..], ys[1..]);
      if xs[0] != "" { ShapesCons(xs[0], NonEmpty(xs[1..]), ys[0], NonEmpty(ys[1..])); }
    }
  }

  lemma PieceShapes(a: string, b: string)
    requires SameShape(a, b)
    ensures SameShapes(NonEmpty(Split(a, DOT)), NonEmpty(Split(b, DOT)))
  {
    SplitShapes(a, b);
    NonEmptyShapes(Split(a, DOT), Split(b, DOT));
  }

  lemma HeadOfNonEmpty(pieces: seq<string>)
    requires pieces != []
    ensures NonEmpty(pieces) == (if pieces[0] == "" then [] else [pieces[0]]) + NonEmpty(pieces[1..])
  {}

  /** Two strings of the same shape are equal once their non-empty pieces are. */
  lemma {:induction false} PiecesDetermine(a: string, b: string)
    requires SameShape(a, b) && NonEmpty(Split(a, DOT)) == NonEmpty(Split(b, DOT))
    ensures a == b
  {
    if a != "" {
      var ra, rb := Split(a[1..], DOT), Split(b[1..], DOT);
      assert SameShape(a[1..], b[1..]);
      HeadOfNonEmpty(Split(a, DOT));
      HeadOfNonEmpty(Split(b, DOT));
      if a[0] == DOT {
        assert Split(a, DOT)[1..] == ra && Split(b, DOT)[1..] == rb;
      } else {
        SplitShapes(a[1..], b[1..]);
        assert SameShape(ra[0], rb[0]);
        HeadOfNonEmpty(ra);
        HeadOfNonEmpty(rb);
        assert Split(a, DOT)[1..] == ra[1..] && Split(b, DOT)[1..] == rb[1..];
        var fa, fb := [a[0]] + ra[0], [b[0]] + rb[0];
        assert NonEmpty(Split(a, DOT))[0] == fa && NonEmpty(Split(b, DOT))[0] == fb;
        assert fa[1..] == ra[0] && fb[1..] == rb[0];
        assert NonEmpty(Split(a, DOT))[1..] == NonEmpty(ra[1..]);
        assert NonEmpty(Split(b, DOT))[1..] == NonEmpty(rb[1..]);
      }
      PiecesDetermine(a[1..], b[1..]);
      assert a == [a[0]] + a[1..] && b == [b[0]] + b[1..];
    }
  }

  /** The lookup walks the same path the insert side stored exactly when folding label by label is
      folding the whole name. */
  lemma WalksAgreeIff(d: string)
    ensures WalkPath(d) == InsertPath(d) <==> SigmaSafe(Trimmed(d))
  {
    var s := Trimmed(d);
    WalkPathIsByLabel(d);
    InsertPathIsLabels(d);
    FoldsAgreeIff(s);
    if WalkPath(d) == InsertPath(d) {
      ReverseTwice(NonEmpty(Split(LowerByLabel(s), DOT)));
      ReverseTwice(NormLabels(d));
      LowerByLabelShape(s);
      PiecesDetermine(LowerByLabel(s), Lower(s));
    }
  }

  // ---- Normalising twice ----

  ghost predicate Folded(s: string) {
    forall i :: 0 <= i < |s| ==> !IsUpper(s[i]) && s[i] != SIGMA
  }

  lemma FoldedIsFixed(s: string)
    requires Folded(s)
    ensures Lower(s) == s
  {
    LowerChars(s);
  }

  lemma NormalizeIsFolded(d: string)
    ensures Folded(Normalize(d))
  {
    var low, n := Lower(Trimmed(d)), Normalize(d);
    LowerChars(Trimmed(d));
    forall i | 0 <= i < |n| ensures !IsUpper(n[i]) && n[i] != SIGMA {
      TidyMembers(low, DOT, n[i]);
      if n[i] != DOT {
        var j :| 0 <= j < |low| && low[j] == n[i];
      }
    }
  }

  lemma LabelsTail(ls: seq<string>)
    requires Labels(ls, DOT) && ls != []
    ensures Labels(ls[1..], DOT) && ls[0] != "" && DOT !in ls[0]
  {}

  function Last(s: string): char
    requires s != ""
  {
    s[|s| - 1]
  }

  lemma JoinStart(ls: seq<string>)
    requires Labels(ls, DOT) && ls != []
    ensures ls[0] != "" && Join(ls, DOT) != "" && Join(ls, DOT)[0] == ls[0][0]
  {
    LabelsTail(ls);
  }

  lemma {:induction false} JoinEnd(ls: seq<string>, last: string)
    requires Labels(ls, DOT) && ls != [] && last == ls[|ls| - 1]
    ensures last != "" && Join(ls, DOT) != "" && Last(Join(ls, DOT)) == Last(last) != DOT
  {
    LabelsTail(ls);
    if |ls| > 1 {
      var rest := Join(ls[1..], DOT);
      JoinEnd(ls[1..], last);
      assert Join(ls, DOT) == ls[0] + [DOT] + rest;
    } else {
      assert Last(last) in last;
    }
  }

  lemma TrimEndDotsFixes(s: string)
    requires s == "" || s[|s| - 1] != DOT
    ensures TrimEndDots(s) == s
  {}

  lemma NormalizeShorter(d: string)
    ensures |Normalize(d)| <= |Trim(d)|
  {
    TrimEndDotsDrops(Trim(d));
    TidyLength(Lower(Trimmed(d)), DOT);
  }

  predicate StartsBlank(s: string) { s != "" && IsSpace(s[0]) }

  predicate EndsBlank(s: string) { s != "" && IsSpace(s[|s| - 1]) }

  lemma TrimFixesIff(s: string)
    ensures Trim(s) == s <==> !StartsBlank(s) && !EndsBlank(s)
    ensures Trim(s) == s || |Trim(s)| < |s|
  {
    var t := TrimStart(s);
    TrimStartDrops(s);
    TrimEndDrops(t);
    assert |t| == |s| ==> t == s;
    assert |TrimEnd(t)| == |t| ==> TrimEnd(t) == t;
    if StartsBlank(s) { TrimStartDrops(s[1..]); }
    if EndsBlank(t) { TrimEndDrops(t[..|t| - 1]); }
  }

  lemma BlankShape(a: string, b: string)
    requires SameShape(a, b)
    ensures (StartsBlank(a) <==> StartsBlank(b)) && (EndsBlank(a) <==> EndsBlank(b))
  {}

  /** No white space next to a dot that normalising drops: the first non-empty label of the trimmed
      name does not start with white space, and the last does not end with any. */
  predicate CleanEdges(d: string) {
    var ls := NonEmpty(Split(Trimmed(d), DOT));
    ls == [] || (!StartsBlank(ls[0]) && !EndsBlank(ls[|ls| - 1]))
  }

  /** Trimming the normalised name would change nothing exactly when the edges were clean. */
  lemma TrimNormalizedIff(d: string)
    ensures Trim(Normalize(d)) == Normalize(d) <==> CleanEdges(d)
  {
    var low := Lower(Trimmed(d));
    LowerShape(Trimmed(d));
    PieceShapes(low, Trimmed(d));
    SplitLabels(low, DOT);
    TrimJoinedIff(NormLabels(d), NonEmpty(Split(Trimmed(d), DOT)));
  }

  lemma TrimJoinedIff(n: seq<string>, ls: seq<string>)
    requires SameShapes(n, ls) && Labels(n, DOT)
    ensures Trim(Join(n, DOT)) == Join(n, DOT) <==> ls == [] || (!StartsBlank(ls[0]) && !EndsBlank(ls[|ls| - 1]))
  {
    TrimFixesIff(Join(n, DOT));
    if n != [] {
      JoinStart(n);
      JoinEnd(n, n[|n| - 1]);
      assert SameShape(n[0], ls[0]) && SameShape(n[|n| - 1], ls[|ls| - 1]);
      BlankShape(n[0], ls[0]);
      BlankShape(n[|n| - 1], ls[|ls| - 1]);
    }
  }

  /** Normalising twice is normalising once exactly when no white space stands next to a dot that is
      dropped (trimming happens before the dots go, so such white space is left at the ends). */
  lemma NormalizeTwiceIff(d: string)
    ensures Normalize(Normalize(d)) == Normalize(d) <==> CleanEdges(d)
  {
    var n := Normalize(d);
    var ls := NormLabels(d);
    TrimNormalizedIff(d);
    SplitLabels(Lower(Trimmed(d)), DOT);
    if Trim(n) == n {
      if ls != [] { JoinEnd(ls, ls[|ls| - 1]); }
      TrimEndDotsFixes(n);
      NormalizeIsFolded(d);
      FoldedIsFixed(n);
      LabelsRoundTrip(ls, DOT);
    } else {
      NormalizeShorter(n);
      TrimFixesIff(n);
    }
  }

  /** The stored path is read back from its own name. */
  ghost predicate SelfNormal(p: Path) { InsertPath(NameOf(p)) == p }

  lemma SelfNormalIff(d: string)
    ensures SelfNormal(InsertPath(d)) <==> CleanEdges(d)
  {
    NameOfInsertPath(d);
    NormalizeTwiceIff(d);
    NameOfInsertPath(Normalize(d));
    InsertPathIsLabels(d);
    InsertPathIsLabels(Normalize(d));
    if Normalize(Normalize(d)) == Normalize(d) {
      NameOfInjective(InsertPath(Normalize(d)), InsertPath(d));
    }
  }

  lemma {:induction false} NoSpaceTrim(s: string)
    requires forall i :: 0 <= i < |s| ==> !IsSpace(s[i])
    ensures Trim(s) == s
  {}

  /** Without white space in the source name, the stored path is always read back. */
  lemma SpacelessIsSelfNormal(d: string)
    requires forall i :: 0 <= i < |d| ==> !IsSpace(d[i])
    ensures SelfNormal(InsertPath(d))
  {
    var low, n := Lower(Trimmed(d)), Normalize(d);
    NoSpaceTrim(d);
    TrimEndDotsDrops(d);
    LowerFixes(Trimmed(d));
    forall i | 0 <= i < |n| ensures !IsSpace(n[i]) {
      TidyMembers(low, DOT, n[i]);
      if n[i] != DOT {
        var j :| 0 <= j < |low| && low[j] == n[i];
        assert !IsSpace(Trimmed(d)[j]);
      }
    }
    NoSpaceTrim(n);
    TrimNormalizedIff(d);
    SelfNormalIff(d);
  }

  // ---- What folding means ----

  /** The same ASCII letter in either case, or the same character. */
  predicate SameLetter(c: char, d: char) {
    || c == d
    || ('A' <= c <= 'Z' && 'a' <= d <= 'z' && c as int - 'A' as int == d as int - 'a' as int)
    || ('a' <= c <= 'z' && 'A' <= d <= 'Z' && c as int - 'a' as int == d as int - 'A' as int)
  }

  /** The names differ at most in the case of ASCII letters. */
  ghost predicate SameButCase(a: string, b: string) {
    |a| == |b| && forall i :: 0 <= i < |a| ==> SameLetter(a[i], b[i])
  }

  lemma SameButCaseSlice(a: string, b: string, lo: nat, hi: nat)
    requires SameButCase(a, b) && lo <= hi <= |a|
    ensures SameButCase(a[lo..hi], b[lo..hi])
  {}

  lemma {:induction false} SameButCaseReverse(a: string, b: string)
    requires SameButCase(a, b)
    ensures SameButCase(Reverse(a), Reverse(b))
  {
    ReverseAt(a);
    ReverseAt(b);
  }

  lemma {:induction false} IgnorableThenCasedAlike(a: string, b: string)
    requires SameButCase(a, b)
    ensures IgnorableThenCased(a) <==> IgnorableThenCased(b)
  {
    if a != "" {
      SameButCaseSlice(a, b, 1, |a|);
      IgnorableThenCasedAlike(a[1..], b[1..]);
      assert SameLetter(a[0], b[0]);
    }
  }

  lemma LowerAtAlike(a: string, b: string, i: nat)
    requires SameButCase(a, b) && i < |a|
    ensures LowerAt(a, i) == LowerAt(b, i)
  {
    assert SameLetter(a[i], b[i]);
    SameButCaseSlice(a, b, 0, i);
    SameButCaseReverse(a[..i], b[..i]);
    IgnorableThenCasedAlike(Reverse(a[..i]), Reverse(b[..i]));
    SameButCaseSlice(a, b, i + 1, |a|);
    IgnorableThenCasedAlike(a[i + 1..], b[i + 1..]);
  }

  /** Folding forgets the case of ASCII letters. */
  lemma LowerAlike(a: string, b: string)
    requires SameButCase(a, b)
    ensures Lower(a) == Lower(b)
  {
    LowerChars(a);
    LowerChars(b);
    forall i | 0 <= i < |a| ensures Lower(a)[i] == Lower(b)[i] { LowerAtAlike(a, b, i); }
  }

  lemma {:induction false} TrimStartAlike(a: string, b: string)
    requires SameButCase(a, b)
    ensures SameButCase(TrimStart(a), TrimStart(b))
  {
    if a != "" {
      assert SameLetter(a[0], b[0]);
      SameButCaseSlice(a, b, 1, |a|);
      TrimStartAlike(a[1..], b[1..]);
    }
  }

  lemma {:induction false} TrimEndAlike(a: string, b: string)
    requires SameButCase(a, b)
    ensures SameButCase(TrimEnd(a), TrimEnd(b))
  {
    if a != "" {
      assert SameLetter(a[|a| - 1], b[|b| - 1]);
      SameButCaseSlice(a, b, 0, |a| - 1);
      TrimEndAlike(a[..|a| - 1], b[..|b| - 1]);
    }
  }

  lemma {:induction false} TrimEndDotsAlike(a: string, b: string)
    requires SameButCase(a, b)
    ensures SameButCase(TrimEndDots(a), TrimEndDots(b))
  {
    if a != "" {
      assert SameLetter(a[|a| - 1], b[|b| - 1]);
      SameButCaseSlice(a, b, 0, |a| - 1);
      TrimEndDotsAlike(a[..|a| - 1], b[..|b| - 1]);
    }
  }

  lemma TrimmedAlike(a: string, b: string)
    requires SameButCase(a, b)
    ensures SameButCase(Trimmed(a), Trimmed(b))
  {
    TrimStartAlike(a, b);
    TrimEndAlike(TrimStart(a), TrimStart(b));
    TrimEndDotsAlike(Trim(a), Trim(b));
  }

  lemma LowerInLabelAlike(a: string, b: string, i: nat)
    requires SameButCase(a, b) && i < |a|
    ensures LowerInLabel(a, i) == LowerInLabel(b, i)
  {
    assert SameLetter(a[i], b[i]);
    if a[i] != DOT {
      var lo, hi := LabelStart(a, i), LabelEnd(a, i);
      LabelStartIs(a, i);
      LabelEndIs(a, i);
      assert hi < |a| ==> SameLetter(a[hi], b[hi]);
      assert lo > 0 ==> SameLetter(a[lo - 1], b[lo - 1]);
      forall k | lo <= k < hi ensures b[k] != DOT { assert SameLetter(a[k], b[k]); }
      LabelUnique(b, i, lo, hi);
      SameButCaseSlice(a, b, lo, hi);
      LowerAtAlike(a[lo..hi], b[lo..hi], i - lo);
    }
  }

  lemma LowerByLabelAlike(a: string, b: string)
    requires SameButCase(a, b)
    ensures LowerByLabel(a) == LowerByLabel(b)
  {
    LowerByLabelAt(a);
    LowerByLabelAt(b);
    forall i | 0 <= i < |a| ensures LowerByLabel(a)[i] == LowerByLabel(b)[i] { LowerInLabelAlike(a, b, i); }
  }

  /** Names that differ only in ASCII case are stored under the same path and looked up along the same
      path. */
  lemma CaseDoesNotMatter(a: string, b: string)
    requires SameButCase(a, b)
    ensures InsertPath(a) == InsertPath(b) && WalkPath(a) == WalkPath(b)
  {
    TrimmedAlike(a, b);
    LowerAlike(Trimmed(a), Trimmed(b));
    LowerByLabelAlike(Trimmed(a), Trimmed(b));
    WalkPathIsByLabel(a);
    WalkPathIsByLabel(b);
  }

  /** A name in lower-case ASCII: nothing beyond the ASCII range, no capital. */
  predicate LowerAscii(d: string) {
    forall i :: 0 <= i < |d| ==> d[i] < '\U{0080}' && !('A' <= d[i] <= 'Z')
  }

  /** A lower-case ASCII name without white space or empty labels is stored, and looked up, as its own
      labels, and is its own normalised form. */
  lemma LowerAsciiIsItself(d: string)
    requires d != "" && LowerAscii(d) && Labels(Split(d, DOT), DOT)
    requires forall i :: 0 <= i < |d| ==> !IsSpace(d[i])
    ensures InsertPath(d) == WalkPath(d) == Reverse(Split(d, DOT)) && Normalize(d) == d
  {
    NoSpaceTrim(d);
    LastLabelEnds(d);
    TrimEndDotsFixes(d);
    assert Folded(d);
    FoldedIsFixed(d);
    NonEmptyKeeps(Split(d, DOT));
    JoinSplit(d, DOT);
    InsertPathIsLabels(d);
    NoSigmaIsSafe(d);
    WalksAgreeIff(d);
  }

  lemma NoSigmaIsSafe(d: string)
    requires SIGMA !in d
    ensures SigmaSafe(d)
  {
    forall i | 0 <= i < |d| ensures SafeAt(d, i) { assert d[i] in d; }
  }

  lemma LastLabelEnds(d: string)
    requires d != "" && Labels(Split(d, DOT), DOT)
    ensures d[|d| - 1] != DOT
  {
    var ls := Split(d, DOT);
    JoinSplit(d, DOT);
    JoinEnd(ls, ls[|ls| - 1]);
  }

  // ---- The sigma rule, read off the text ----

  /** A cased character at `j`, with only case-ignorable ones between it and `i`. */
  ghost predicate CasedBefore(s: string, i: nat, j: nat)
    requires i <= |s|
  {
    j < i && Cased(s[j]) && !CaseIgnorable(s[j]) && forall k :: j < k < i ==> CaseIgnorable(s[k])
  }

  ghost predicate CasedAfter(s: string, i: nat, j: nat)
    requires i < |s|
  {
    i < j < |s| && Cased(s[j]) && !CaseIgnorable(s[j]) && forall k :: i < k < j ==> CaseIgnorable(s[k])
  }

  lemma {:induction false} IgnorableThenCasedFinds(s: string)
    ensures IgnorableThenCased(s) <==>
            exists j :: 0 <= j < |s| && Cased(s[j]) && !CaseIgnorable(s[j]) && forall k :: 0 <= k < j ==> CaseIgnorable(s[k])
  {
    if s != "" {
      var t := s[1..];
      IgnorableThenCasedFinds(t);
      if CaseIgnorable(s[0]) && IgnorableThenCased(t) {
        var j :| 0 <= j < |t| && Cased(t[j]) && !CaseIgnorable(t[j]) && forall k :: 0 <= k < j ==> CaseIgnorable(t[k]);
        assert s[j + 1] == t[j];
        forall k | 0 <= k < j + 1 ensures CaseIgnorable(s[k]) { if k > 0 { assert t[k - 1] == s[k]; } }
      }
      if j :| 0 <= j < |s| && Cased(s[j]) && !CaseIgnorable(s[j]) && forall k :: 0 <= k < j ==> CaseIgnorable(s[k]) {
        if j > 0 {
          assert t[j - 1] == s[j] && CaseIgnorable(s[0]);
          forall k | 0 <= k < j - 1 ensures CaseIgnorable(t[k]) { assert t[k] == s[k + 1]; }
        }
      }
    }
  }

  lemma CasedBeforeMeans(s: string, i: nat)
    requires i <= |s|
    ensures IgnorableThenCased(Reverse(s[..i])) <==> exists j: nat :: CasedBefore(s, i, j)
  {
    var r := Reverse(s[..i]);
    ReverseAt(s[..i]);
    IgnorableThenCasedFinds(r);
    if IgnorableThenCased(r) {
      var j :| 0 <= j < |r| && Cased(r[j]) && !CaseIgnorable(r[j]) && forall k :: 0 <= k < j ==> CaseIgnorable(r[k]);
      forall k | i - 1 - j < k < i ensures CaseIgnorable(s[k]) { assert r[i - 1 - k] == s[k]; }
      assert CasedBefore(s, i, i - 1 - j);
    }
    if j: nat :| CasedBefore(s, i, j) {
      assert r[i - 1 - j] == s[j];
      forall k | 0 <= k < i - 1 - j ensures CaseIgnorable(r[k]) { assert r[k] == s[i - 1 - k]; }
    }
  }

  lemma CasedAfterMeans(s: string, i: nat)
    requires i < |s|
    ensures IgnorableThenCased(s[i + 1..]) <==> exists j: nat :: CasedAfter(s, i, j)
  {
    var r := s[i + 1..];
    IgnorableThenCasedFinds(r);
    if IgnorableThenCased(r) {
      var j :| 0 <= j < |r| && Cased(r[j]) && !CaseIgnorable(r[j]) && forall k :: 0 <= k < j ==> CaseIgnorable(r[k]);
      forall k | i < k < i + 1 + j ensures CaseIgnorable(s[k]) { assert r[k - i - 1] == s[k]; }
      assert CasedAfter(s, i, i + 1 + j);
    }
    if j: nat :| CasedAfter(s, i, j) {
      assert r[j - i - 1] == s[j];
      forall k | 0 <= k < j - i - 1 ensures CaseIgnorable(r[k]) { assert r[k] == s[k + i + 1]; }
    }
  }

  /** A capital sigma folds to the final form exactly when a cased character stands before it and none
      after it, case-ignorable characters skipped; else to the ordinary small letter. */
  lemma SigmaFolds(s: string, i: nat)
    requires i < |s| && s[i] == '\U{03A3}'
    ensures |Lower(s)| == |s|
    ensures Lower(s)[i] == if (exists j: nat :: CasedBefore(s, i, j)) && !(exists j: nat :: CasedAfter(s, i, j))
                           then '\U{03C2}' else '\U{03C3}'
  {
    LowerCharAt(s, i);
    CasedBeforeMeans(s, i);
    CasedAfterMeans(s, i);
  }

  // ---- Plain ASCII names, end to end ----

  /** An ASCII name as people write it: no white space, no empty label. */
  ghost predicate AsciiName(d: string) {
    && d != "" && Labels(Split(d, DOT), DOT)
    && forall i :: 0 <= i < |d| ==> d[i] < '\U{0080}' && !IsSpace(d[i])
  }

  lemma AsciiFolds(d: string)
    requires forall i :: 0 <= i < |d| ==> d[i] < '\U{0080}'
    ensures SameButCase(d, Lower(d)) && LowerAscii(Lower(d))
  {
    LowerChars(d);
  }

  lemma AsciiEqualIff(a: string, b: string)
    requires forall i :: 0 <= i < |a| ==> a[i] < '\U{0080}'
    requires forall i :: 0 <= i < |b| ==> b[i] < '\U{0080}'
    ensures Lower(a) == Lower(b) <==> SameButCase(a, b)
  {
    AsciiFolds(a);
    AsciiFolds(b);
    if SameButCase(a, b) { LowerAlike(a, b); }
    if Lower(a) == Lower(b) {
      forall i | 0 <= i < |a| ensures SameLetter(a[i], b[i]) {
        assert SameLetter(a[i], Lower(a)[i]) && SameLetter(b[i], Lower(b)[i]);
      }
    }
  }

  /** An ASCII name is normalised to its lower-case form, and looked up along the path it is stored
      under. */
  lemma AsciiNormalizes(d: string)
    requires AsciiName(d)
    ensures Normalize(d) == Lower(d) && SigmaSafe(Trimmed(d))
  {
    var low := Lower(d);
    AsciiFolds(d);
    LowerShape(d);
    SplitShapes(low, d);
    LabelsAlike(Split(low, DOT), Split(d, DOT), low);
    forall i | 0 <= i < |low| ensures !IsSpace(low[i]) { assert IsSpace(low[i]) <==> IsSpace(d[i]); }
    LowerAsciiIsItself(low);
    CaseDoesNotMatter(d, low);
    NameOfInsertPath(d);
    NameOfInsertPath(low);
    NoSpaceTrim(d);
    TrimEndDotsDrops(d);
    NoSigmaIsSafe(Trimmed(d));
  }

  lemma LabelsAlike(xs: seq<string>, ys: seq<string>, low: string)
    requires SameShapes(xs, ys) && Labels(ys, DOT) && xs == Split(low, DOT)
    ensures Labels(xs, DOT)
  {
    SplitPiecesClean(low, DOT);
    forall i | 0 <= i < |xs| ensures xs[i] != "" && DOT !in xs[i] { assert SameShape(xs[i], ys[i]); }
  }

  /** `d` is the name `x` or a name under it, whatever the case of letters. */
  ghost predicate AtOrUnder(d: string, x: string) {
    || SameButCase(d, x)
    || (|d| > |x| && d[|d| - |x| - 1] == DOT && SameButCase(d[|d| - |x|..], x))
  }

  lemma LowerTailAscii(d: string, k: nat)
    requires k <= |d| && forall i :: 0 <= i < |d| ==> d[i] < '\U{0080}'
    ensures Lower(d[k..]) == Lower(d)[k..]
  {
    LowerChars(d);
    LowerChars(d[k..]);
    forall i | 0 <= i < |d| - k ensures Lower(d[k..])[i] == Lower(d)[k..][i] { assert d[k..][i] == d[k + i]; }
  }

  lemma AsciiZoneIff(d: string, x: string)
    requires AsciiName(d) && AsciiName(x)
    ensures IsZoneOf(Lower(x), Lower(d)) <==> AtOrUnder(d, x)
  {
    AsciiEqualIff(d, x);
    LowerChars(d);
    LowerChars(x);
    if |d| > |x| {
      var k := |d| - |x|;
      LowerTailAscii(d, k);
      AsciiEqualIff(d[k..], x);
      LowerFixes(d);
      ZoneSuffix(Lower(d), Lower(x));
    }
  }

  lemma ZoneSuffix(n: string, z: string)
    requires |n| > |z|
    ensures EndsWith(n, [DOT] + z) <==> n[|n| - |z| - 1] == DOT && n[|n| - |z|..] == z
  {
    var k := |n| - |z| - 1;
    var t := n[k..];
    assert n[|n| - |[DOT] + z|..] == t;
    assert t == [t[0]] + n[k + 1..];
    if t == [DOT] + z { assert t[1..] == z; }
  }

  // ---- Two names the code mishandles ----

  lemma OneLabelPath(d: string, s: string)
    requires Trimmed(d) == s && s != "" && DOT !in s && Folded(s)
    ensures InsertPath(d) == [s] && NameOf([s]) == s
  {
    FoldedIsFixed(s);
    SplitPrepend(s, [], DOT);
    assert s + [] == s;
    assert Split(s, DOT) == [s] && NonEmpty([s]) == [s];
    InsertPathIsLabels(d);
    assert Reverse([s]) == [s];
  }

  /** "a ." is stored as "a " but its name is read back as "a". */
  lemma SpaceBeforeDot(d: string, stored: string, read: string)
    requires d == "a ." && stored == "a " && read == "a"
    ensures InsertPath(d) == [stored] && NameOf([stored]) == stored && InsertPath(stored) == [read]
  {
    assert TrimStart(d) == d && TrimEnd(d) == d && d[..2] == stored;
    assert TrimEndDots(d) == stored;
    OneLabelPath(d, stored);
    assert TrimStart(stored) == stored && stored[..1] == read && TrimEnd(stored) == read;
    OneLabelPath(stored, read);
  }

  /** A capital sigma between a letter and a dot that a letter follows: word-final in its label, not
      in the name. */
  lemma SigmaBeforeDot(s: string, i: nat)
    requires 0 < i && i + 2 < |s| && s[i] == SIGMA && s[i + 1] == DOT && Cased(s[i - 1]) && Cased(s[i + 2])
    ensures !SigmaSafe(s)
  {
    var lo := LabelStart(s, i);
    LabelStartIs(s, i);
    LabelUnique(s, i, lo, i + 1);
    var l := s[lo..i + 1];
    var before := l[..i - lo];
    assert before[|before| - 1] == s[i - 1];
    ReverseAt(before);
    assert IgnorableThenCased(Reverse(before));
    assert l[i - lo + 1..] == "";
    var after := s[i + 1..];
    assert after[0] == DOT && after[1..] == s[i + 2..] && s[i + 2..][0] == s[i + 2];
    assert IgnorableThenCased(s[i + 2..]);
    assert WordFinal(l, i - lo) && !WordFinal(s, i);
    assert !SafeAt(s, i);
  }

  /** Such a name is not found under its own stored path. */
  lemma SigmaNameIsLost(d: string)
    requires d == ['A', SIGMA, '.', 'c']
    ensures !SigmaSafe(Trimmed(d)) && WalkPath(d) != InsertPath(d)
  {
    assert TrimStart(d) == d && TrimEnd(d) == d && TrimEndDots(d) == d;
    SigmaBeforeDot(d, 1);
    WalksAgreeIff(d);
  }

  // ---- Prefixes of paths are parent zones of names ----

  ghost predicate EndsWith(s: string, t: string) {
    |t| <= |s| && s[|s| - |t|..] == t
  }

  /** `zone` is the name itself or one of its parent domains. */
  ghost predicate IsZoneOf(zone: string, name: string) {
    name == zone || EndsWith(name, [DOT] + zone)
  }

  lemma PrefixIsZone(p: Path, q: Path)
    requires IsPath(p) && IsPath(q) && p != [] && p <= q
    ensures IsZoneOf(NameOf(p), NameOf(q))
  {
    var r := q[|p|..];
    assert q == p + r;
    if r != [] {
      ReverseConcat(p, r);
      JoinConcat(Reverse(r), Reverse(p), DOT);
      var w, z := Join(Reverse(r), DOT), NameOf(p);
      assert NameOf(q) == w + ([DOT] + z);
      assert NameOf(q)[|w|..] == [DOT] + z;
    } else {
      assert q == p;
    }
  }

  lemma ZoneIsPrefix(p: Path, q: Path)
    requires IsPath(p) && IsPath(q) && p != [] && IsZoneOf(NameOf(p), NameOf(q))
    ensures p <= q
  {
    ReverseLabels(p);
    ReverseLabels(q);
    JoinEmptyOnlyIfNone(Reverse(p), DOT);
    if NameOf(q) == NameOf(p) {
      NameOfInjective(p, q);
    } else {
      var z, n := NameOf(p), NameOf(q);
      var w := n[..|n| - |z| - 1];
      assert n == w + ([DOT] + z);
      assert n == w + [DOT] + z;
      SplitConcat(w, z, DOT);
      assert Reverse(q) != [];
      SplitJoin(Reverse(p), DOT);
      SplitJoin(Reverse(q), DOT);
      assert Reverse(q) == Split(w, DOT) + Reverse(p);
      ReverseConcat(Split(w, DOT), Reverse(p));
      ReverseTwice(p);
      ReverseTwice(q);
      assert q == p + Reverse(Split(w, DOT));
    }
  }
}
