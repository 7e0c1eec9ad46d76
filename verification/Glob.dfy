/** The `*` glob of userscript match patterns: an iterative matcher that remembers only the last
    star and backtracks to it, against the declarative meaning of a glob. */
module Glob {

  const STAR: char := '*'

  /** The concatenation of a sequence of pieces. */
  ghost function Concat(pieces: seq<string>): string {
    if pieces == [] then "" else pieces[0] + Concat(pieces[1..])
  }

  /** `pieces` cuts `t` as `p` prescribes: one piece per pattern character, where a star takes any
      string and every other character takes exactly itself. */
  ghost predicate IsCut(p: string, t: string, pieces: seq<string>) {
    && |pieces| == |p|
    && Concat(pieces) == t
    && forall i :: 0 <= i < |p| && p[i] != STAR ==> pieces[i] == [p[i]]
  }

  /** The meaning of a glob: the text can be cut into matching pieces. */
  ghost predicate Matches(p: string, t: string) {
    exists pieces: seq<string> :: IsCut(p, t, pieces)
  }

  /** The same meaning, unfolded one pattern character at a time. */
  ghost predicate Derives(p: string, t: string) {
    if p == "" then t == ""
    else if p[0] == STAR then exists k: nat :: k <= |t| && Derives(p[1..], t[k..])
    else t != "" && p[0] == t[0] && Derives(p[1..], t[1..])
  }

  lemma {:induction false} DerivesGivesCut(p: string, t: string) returns (pieces: seq<string>)
    requires Derives(p, t)
    ensures IsCut(p, t, pieces)
  {
    if p == "" {
      pieces := [];
    } else if p[0] == STAR {
      var k: nat :| k <= |t| && Derives(p[1..], t[k..]);
      var rest := DerivesGivesCut(p[1..], t[k..]);
      pieces := [t[..k]] + rest;
      assert pieces[1..] == rest;
    } else {
      var rest := DerivesGivesCut(p[1..], t[1..]);
      pieces := [t[..1]] + rest;
      assert pieces[1..] == rest;
    }
  }

  lemma {:induction false} CutGivesDerives(p: string, t: string, pieces: seq<string>)
    requires IsCut(p, t, pieces)
    ensures Derives(p, t)
  {
    if p != "" {
      var k := |pieces[0]|;
      assert t[k..] == Concat(pieces[1..]);
      CutGivesDerives(p[1..], t[k..], pieces[1..]);
    }
  }

  lemma {:induction false} DerivesIsMatches(p: string, t: string)
    ensures Derives(p, t) <==> Matches(p, t)
  {
    if Derives(p, t) {
      var pieces := DerivesGivesCut(p, t);
    }
    if Matches(p, t) {
      var pieces :| IsCut(p, t, pieces);
      CutGivesDerives(p, t, pieces);
    }
  }

  /** A pattern character that is no star takes itself from the text. */
  lemma CharUnfolds(p: string, t: string, pi: nat, ti: nat)
    requires pi < |p| && p[pi] != STAR && ti <= |t| && Derives(p[pi..], t[ti..])
    ensures ti < |t| && p[pi] == t[ti] && Derives(p[pi + 1..], t[ti + 1..])
  {
    assert p[pi..][1..] == p[pi + 1..];
    assert ti < |t| ==> t[ti..][1..] == t[ti + 1..];
  }

  ghost predicate StarFree(p: string, from: nat, to: nat)
    requires to <= |p|
  {
    forall k :: from <= k < to ==> p[k] != STAR
  }

  /** A star-free stretch of the pattern is spent on as many characters of the text. */
  lemma {:induction false} StretchUnfolds(p: string, t: string, pi: nat, end: nat, ti: nat)
    requires pi <= end <= |p| && StarFree(p, pi, end) && ti <= |t| && Derives(p[pi..], t[ti..])
    ensures ti + (end - pi) <= |t| && Derives(p[end..], t[ti + (end - pi)..])
    decreases end - pi
  {
    if pi < end {
      CharUnfolds(p, t, pi, ti);
      StretchUnfolds(p, t, pi + 1, end, ti + 1);
    }
  }

  /** The tail of the pattern matches some suffix of `t` that starts at `from` or later. */
  ghost predicate DerivesLater(p: string, t: string, from: nat) {
    exists k: nat :: from <= k <= |t| && Derives(p, t[k..])
  }

  /** A star matches at `k` exactly when what follows it matches at `k` or later. */
  lemma StarUnfolds(p: string, t: string, pi: nat, ti: nat)
    requires pi < |p| && p[pi] == STAR && ti <= |t|
    ensures Derives(p[pi..], t[ti..]) <==> DerivesLater(p[pi + 1..], t, ti)
  {
    assert p[pi..][1..] == p[pi + 1..];
    if Derives(p[pi..], t[ti..]) {
      var k: nat :| k <= |t[ti..]| && Derives(p[pi..][1..], t[ti..][k..]);
      assert t[ti..][k..] == t[ti + k..];
    }
    if DerivesLater(p[pi + 1..], t, ti) {
      var k: nat :| ti <= k <= |t| && Derives(p[pi + 1..], t[k..]);
      assert t[ti..][k - ti..] == t[k..];
    }
  }

  /** What the pair (current position, last star) still has to offer. */
  ghost predicate Pending(p: string, t: string, pi: nat, ti: nat, star: int, mark: nat)
    requires pi <= |p| && ti <= |t| && star < |p|
  {
    || Derives(p[pi..], t[ti..])
    || (star >= 0 && DerivesLater(p[star + 1..], t, mark + 1))
  }

  /** Between the last star and the current position the pattern was spent character by character. */
  ghost predicate LiteralRun(p: string, t: string, pi: nat, ti: nat, star: int, mark: nat) {
    && star < pi <= |p| && mark <= ti <= |t|
    && (star >= 0 ==> p[star] == STAR && pi - star - 1 == ti - mark && StarFree(p, star + 1, pi))
  }

  /** On reaching a new star the older one can be forgotten: whatever the older star could still
      reach by giving way, the new star reaches as well. */
  lemma ForgetOlderStar(p: string, t: string, pi: nat, ti: nat, star: int, mark: nat)
    requires LiteralRun(p, t, pi, ti, star, mark)
    requires pi < |p| && p[pi] == STAR
    ensures Pending(p, t, pi, ti, star, mark) <==> DerivesLater(p[pi + 1..], t, ti)
  {
    StarUnfolds(p, t, pi, ti);
    if star >= 0 && DerivesLater(p[star + 1..], t, mark + 1) {
      var k: nat :| mark + 1 <= k <= |t| && Derives(p[star + 1..], t[k..]);
      StretchUnfolds(p, t, star + 1, pi, k);
      StarUnfolds(p, t, pi, k + (ti - mark));
    }
  }

  /** Giving the star one more character splits the remaining offers into "here" and "later". */
  lemma GiveWay(p: string, t: string, star: nat, mark: nat)
    requires star < |p| && mark < |t|
    ensures DerivesLater(p[star + 1..], t, mark + 1) <==>
            Pending(p, t, star + 1, mark + 1, star, mark + 1)
  {
    if DerivesLater(p[star + 1..], t, mark + 1) {
      var k: nat :| mark + 1 <= k <= |t| && Derives(p[star + 1..], t[k..]);
      assert k == mark + 1 || mark + 2 <= k;
    }
  }

  /** The text is spent: only a run of stars can still be matched. */
  lemma {:induction false} SpentText(p: string)
    ensures Derives(p, "") <==> (p == "" || (p[0] == STAR && Derives(p[1..], "")))
  {
    if p != "" && p[0] == STAR {
      var e: string := "";
      if Derives(p, e) {
        var k: nat :| k <= |e| && Derives(p[1..], e[k..]);
        assert e[k..] == e;
      }
      if Derives(p[1..], e) { assert e[0..] == e; }
    }
  }

  /** The loop's whole knowledge: a literal run since the last star, and nothing lost. */
  ghost predicate Faithful(p: string, t: string, pi: nat, ti: nat, star: int, mark: nat) {
    && LiteralRun(p, t, pi, ti, star, mark)
    && (Derives(p, t) <==> Pending(p, t, pi, ti, star, mark))
  }

  lemma FaithfulAtFirst(p: string, t: string)
    ensures Faithful(p, t, 0, 0, -1, 0)
  {
    assert p[0..] == p && t[0..] == t;
  }

  lemma MeetStar(p: string, t: string, pi: nat, ti: nat, star: int, mark: nat)
    requires Faithful(p, t, pi, ti, star, mark) && pi < |p| && p[pi] == STAR
    ensures Faithful(p, t, pi + 1, ti, pi, ti)
  {
    ForgetOlderStar(p, t, pi, ti, star, mark);
    if DerivesLater(p[pi + 1..], t, ti) {
      var k: nat :| ti <= k <= |t| && Derives(p[pi + 1..], t[k..]);
      assert k == ti || ti + 1 <= k;
    }
  }

  lemma MeetLiteral(p: string, t: string, pi: nat, ti: nat, star: int, mark: nat)
    requires Faithful(p, t, pi, ti, star, mark)
    requires pi < |p| && ti < |t| && p[pi] != STAR && p[pi] == t[ti]
    ensures Faithful(p, t, pi + 1, ti + 1, star, mark)
  {
    assert p[pi..][1..] == p[pi + 1..] && t[ti..][1..] == t[ti + 1..];
  }

  lemma MeetMismatch(p: string, t: string, pi: nat, ti: nat, star: int, mark: nat)
    requires Faithful(p, t, pi, ti, star, mark) && ti < |t|
    requires pi < |p| ==> p[pi] != STAR && p[pi] != t[ti]
    ensures star < 0 ==> !Derives(p, t)
    ensures star >= 0 ==> Faithful(p, t, star + 1, mark + 1, star, mark + 1)
  {
    assert !Derives(p[pi..], t[ti..]);
    if star >= 0 { GiveWay(p, t, star, mark); }
  }

  lemma TextSpent(p: string, t: string, pi: nat, ti: nat, star: int, mark: nat)
    requires Faithful(p, t, pi, ti, star, mark) && ti == |t|
    ensures Derives(p, t) <==> Derives(p[pi..], "")
  {
    assert t[ti..] == "";
    if star >= 0 && DerivesLater(p[star + 1..], t, mark + 1) {
      var k: nat :| mark + 1 <= k <= |t| && Derives(p[star + 1..], t[k..]);
      StretchUnfolds(p, t, star + 1, pi, k);
      assert false;
    }
  }

  /** One turn of the loop: take a star, take a character, give the last star one character more, or be
      stuck. The star advances, or its mark does, or the text does. */
  method Advance(p: string, t: string, pi: nat, ti: nat, star: int, mark: nat)
    returns (stuck: bool, pj: nat, tj: nat, last: int, from: nat)
    requires Faithful(p, t, pi, ti, star, mark) && ti < |t| && -1 <= star
    ensures stuck ==> !Derives(p, t)
    ensures !stuck ==> Faithful(p, t, pj, tj, last, from) && star <= last < |p| && tj <= |t| && from <= |t|
    ensures !stuck ==> last > star || from > mark || (from == mark && tj > ti)
    ensures !stuck && last == star ==> from >= mark
  {
    stuck, pj, tj, last, from := false, pi, ti, star, mark;
    if pi < |p| && (p[pi] == STAR || p[pi] == t[ti]) {
      if p[pi] == STAR {
        MeetStar(p, t, pi, ti, star, mark);
        last := pi;
        from := ti;
        pj := pi + 1;
      } else {
        MeetLiteral(p, t, pi, ti, star, mark);
        pj := pi + 1;
        tj := ti + 1;
      }
    } else {
      MeetMismatch(p, t, pi, ti, star, mark);
      if star == -1 {
        stuck := true;
        return;
      }
      pj := star + 1;
      from := mark + 1;
      tj := from;
    }
  }

  /** The iterative matcher decides exactly the declarative meaning, and terminates. `star` is -1
      where the source keeps `usize::MAX`. */
  method GlobMatch(p: string, t: string) returns (b: bool)
    ensures b <==> Matches(p, t)
  {
    DerivesIsMatches(p, t);
    var pi: nat, ti: nat := 0, 0;
    var star: int, mark: nat := -1, 0;
    FaithfulAtFirst(p, t);
    while ti < |t|
      invariant Faithful(p, t, pi, ti, star, mark) && -1 <= star
      decreases |p| - star, |t| - mark, |t| - ti
    {
      var stuck;
      stuck, pi, ti, star, mark := Advance(p, t, pi, ti, star, mark);
      if stuck { return false; }
    }
    TextSpent(p, t, pi, ti, star, mark);
    b := OnlyStars(p, pi);
  }

  /** The rest of the pattern is a run of stars. */
  method OnlyStars(p: string, from: nat) returns (b: bool)
    requires from <= |p|
    ensures b <==> Derives(p[from..], "")
  {
    var pi := from;
    while pi < |p| && p[pi] == STAR
      invariant from <= pi <= |p|
      invariant Derives(p[from..], "") <==> Derives(p[pi..], "")
    {
      SpentText(p[pi..]);
      assert p[pi..][1..] == p[pi + 1..];
      pi := pi + 1;
    }
    SpentText(p[pi..]);
    b := pi == |p|;
  }
}
