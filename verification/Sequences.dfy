/** Sequence vocabulary shared by the models: splitting at a separator and joining back, trimming,
    filtering, reversing. */
module Sequences {

  datatype Option<+T> = None | Some(value: T)

  /** The pieces of `s` between separators; the empty sequence has one empty piece. */
  function Split<T(==)>(s: seq<T>, sep: T): (r: seq<seq<T>>)
    ensures |r| >= 1
  {
    if s == [] then [[]]
    else
      var rest := Split(s[1..], sep);
      if s[0] == sep then [[]] + rest else [[s[0]] + rest[0]] + rest[1..]
  }

  function Join<T>(pieces: seq<seq<T>>, sep: T): seq<T> {
    if |pieces| == 0 then []
    else if |pieces| == 1 then pieces[0]
    else pieces[0] + [sep] + Join(pieces[1..], sep)
  }

  /** Drop the empty pieces. */
  function NonEmpty<T(==)>(pieces: seq<seq<T>>): (r: seq<seq<T>>)
    ensures |r| <= |pieces|
  {
    if pieces == [] then []
    else if pieces[0] == [] then NonEmpty(pieces[1..])
    else [pieces[0]] + NonEmpty(pieces[1..])
  }

  function Reverse<T>(s: seq<T>): (r: seq<T>)
    ensures |r| == |s|
  {
    if s == [] then [] else Reverse(s[1..]) + [s[0]]
  }

  lemma Regroup<T>(a: seq<T>, b: seq<T>, c: seq<T>)
    ensures a + b + c == a + (b + c)
  {}

  lemma TailSlice<T>(s: seq<T>, k: nat, lo: nat, hi: nat)
    requires k <= |s| && lo <= hi <= |s| - k
    ensures s[k..][lo..hi] == s[k + lo..k + hi]
  {}

  lemma AfterHead<T>(head: seq<T>, rest: seq<T>, lo: nat, hi: nat)
    requires lo <= hi <= |rest|
    ensures (head + rest)[|head| + lo..|head| + hi] == rest[lo..hi]
  {}

  lemma SplitSlice<T>(s: seq<T>, lo: nat, mid: nat, hi: nat)
    requires lo <= mid <= hi <= |s|
    ensures s[lo..hi] == s[lo..mid] + s[mid..hi]
  {}

  lemma {:induction false} ReverseAt<T>(s: seq<T>)
    ensures forall i :: 0 <= i < |s| ==> Reverse(s)[i] == s[|s| - 1 - i]
  {
    if s != [] { ReverseAt(s[1..]); }
  }

  lemma {:induction false} NonEmptyAll<T>(pieces: seq<seq<T>>)
    ensures forall i :: 0 <= i < |NonEmpty(pieces)| ==> NonEmpty(pieces)[i] != []
  {
    if pieces != [] { NonEmptyAll(pieces[1..]); }
  }

  /** Every piece is non-empty and free of the separator. */
  ghost predicate Labels<T>(pieces: seq<seq<T>>, sep: T) {
    forall i :: 0 <= i < |pieces| ==> pieces[i] != [] && sep !in pieces[i]
  }

  lemma {:induction false} ReverseTwice<T>(s: seq<T>)
    ensures Reverse(Reverse(s)) == s
  {
    ReverseAt(s);
    ReverseAt(Reverse(s));
  }

  lemma {:induction false} JoinSplit<T>(s: seq<T>, sep: T)
    ensures Join(Split(s, sep), sep) == s
  {
    if s != [] {
      JoinSplit(s[1..], sep);
      var rest := Split(s[1..], sep);
      if s[0] == sep {
        assert ([[]] + rest)[1..] == rest;
      } else {
        assert ([[s[0]] + rest[0]] + rest[1..])[1..] == rest[1..];
        assert s == [s[0]] + s[1..];
      }
    }
  }

  lemma {:induction false} SplitPiecesClean<T>(s: seq<T>, sep: T)
    ensures forall i :: 0 <= i < |Split(s, sep)| ==> sep !in Split(s, sep)[i]
  {
    if s != [] { SplitPiecesClean(s[1..], sep); }
  }

  /** Prepending a separator-free block extends the first piece. */
  lemma {:induction false} SplitPrepend<T>(a: seq<T>, s: seq<T>, sep: T)
    requires sep !in a
    ensures Split(a + s, sep) == [a + Split(s, sep)[0]] + Split(s, sep)[1..]
  {
    if a == [] {
      assert a + s == s && a + Split(s, sep)[0] == Split(s, sep)[0];
    } else {
      var p := Split(s, sep);
      SplitPrepend(a[1..], s, sep);
      assert (a + s)[1..] == a[1..] + s && (a + s)[0] == a[0] != sep;
      assert ([a[1..] + p[0]] + p[1..])[1..] == p[1..];
      assert [a[0]] + (a[1..] + p[0]) == a + p[0];
    }
  }

  lemma {:induction false} SplitJoin<T>(pieces: seq<seq<T>>, sep: T)
    requires |pieces| >= 1
    requires forall i :: 0 <= i < |pieces| ==> sep !in pieces[i]
    ensures Split(Join(pieces, sep), sep) == pieces
  {
    if |pieces| == 1 {
      SplitPrepend(pieces[0], [], sep);
      assert pieces[0] + [] == pieces[0];
    } else {
      var tail := Join(pieces[1..], sep);
      SplitJoin(pieces[1..], sep);
      SplitFirst(pieces[0], tail, sep);
      assert pieces == [pieces[0]] + pieces[1..];
    }
  }

  lemma SplitFirst<T>(a: seq<T>, rest: seq<T>, sep: T)
    requires sep !in a
    ensures Split(a + [sep] + rest, sep) == [a] + Split(rest, sep)
  {
    SplitConcat(a, rest, sep);
    SplitPrepend(a, [], sep);
    assert a + [] == a;
  }

  lemma {:induction false} NonEmptyKeeps<T>(pieces: seq<seq<T>>)
    requires forall i :: 0 <= i < |pieces| ==> pieces[i] != []
    ensures NonEmpty(pieces) == pieces
  {
    if pieces != [] { NonEmptyKeeps(pieces[1..]); }
  }

  lemma {:induction false} NonEmptyConcat<T>(a: seq<seq<T>>, b: seq<seq<T>>)
    ensures NonEmpty(a + b) == NonEmpty(a) + NonEmpty(b)
  {
    if a == [] {
      assert a + b == b;
    } else {
      assert (a + b)[1..] == a[1..] + b;
      NonEmptyConcat(a[1..], b);
    }
  }

  lemma {:induction false} NonEmptySub<T>(pieces: seq<seq<T>>)
    ensures forall x :: x in NonEmpty(pieces) ==> x in pieces
  {
    if pieces != [] { NonEmptySub(pieces[1..]); }
  }

  lemma {:induction false} NonEmptyReverse<T>(pieces: seq<seq<T>>)
    ensures NonEmpty(Reverse(pieces)) == Reverse(NonEmpty(pieces))
  {
    if pieces != [] {
      NonEmptyReverse(pieces[1..]);
      NonEmptyConcat(Reverse(pieces[1..]), [pieces[0]]);
      if pieces[0] != [] {
        assert NonEmpty([pieces[0]]) == [pieces[0]];
        assert NonEmpty(pieces)[1..] == NonEmpty(pieces[1..]);
      }
    }
  }

  /** The non-empty pieces of a split are labels. */
  lemma SplitLabels<T>(s: seq<T>, sep: T)
    ensures Labels(NonEmpty(Split(s, sep)), sep)
  {
    SplitPiecesClean(s, sep);
    NonEmptyAll(Split(s, sep));
    NonEmptySub(Split(s, sep));
    var kept := NonEmpty(Split(s, sep));
    forall i | 0 <= i < |kept| ensures kept[i] != [] && sep !in kept[i] {
      assert kept[i] in Split(s, sep);
    }
  }

  /** Labels survive joining and splitting, the empty list included. */
  lemma LabelsRoundTrip<T>(labels: seq<seq<T>>, sep: T)
    requires Labels(labels, sep)
    ensures NonEmpty(Split(Join(labels, sep), sep)) == labels
  {
    if labels != [] {
      SplitJoin(labels, sep);
      NonEmptyKeeps(labels);
    }
  }

  lemma JoinEmptyOnlyIfNone<T>(labels: seq<seq<T>>, sep: T)
    requires Labels(labels, sep)
    ensures Join(labels, sep) == [] <==> labels == []
  {}

  lemma JoinInjective<T>(a: seq<seq<T>>, b: seq<seq<T>>, sep: T)
    requires Labels(a, sep) && Labels(b, sep) && Join(a, sep) == Join(b, sep)
    ensures a == b
  {
    LabelsRoundTrip(a, sep);
    LabelsRoundTrip(b, sep);
  }

  lemma {:induction false} JoinMembers<T>(pieces: seq<seq<T>>, sep: T, c: T)
    requires c in Join(pieces, sep)
    ensures c == sep || exists i :: 0 <= i < |pieces| && c in pieces[i]
  {
    if |pieces| > 1 {
      if c in pieces[0] || c == sep {
      } else {
        assert c in Join(pieces[1..], sep);
        JoinMembers(pieces[1..], sep, c);
        var i :| 0 <= i < |pieces[1..]| && c in pieces[1..][i];
        assert c in pieces[i + 1];
      }
    }
  }

  lemma {:induction false} SplitMembers<T>(s: seq<T>, sep: T, i: nat, c: T)
    requires i < |Split(s, sep)| && c in Split(s, sep)[i]
    ensures c in s
  {
    if s != [] {
      var rest := Split(s[1..], sep);
      if s[0] == sep {
        SplitMembers(s[1..], sep, i - 1, c);
      } else if c != s[0] {
        SplitMembers(s[1..], sep, i, c);
      }
    }
  }

  /** Dropping the empty pieces keeps only characters that were there, and never lengthens. */
  lemma TidyMembers<T>(s: seq<T>, sep: T, c: T)
    requires c in Join(NonEmpty(Split(s, sep)), sep)
    ensures c == sep || c in s
  {
    var kept := NonEmpty(Split(s, sep));
    JoinMembers(kept, sep, c);
    if c != sep {
      var i :| 0 <= i < |kept| && c in kept[i];
      NonEmptySub(Split(s, sep));
      assert kept[i] in Split(s, sep);
      var j :| 0 <= j < |Split(s, sep)| && Split(s, sep)[j] == kept[i];
      SplitMembers(s, sep, j, c);
    }
  }

  lemma {:induction false} JoinTidyLength<T>(pieces: seq<seq<T>>, sep: T)
    ensures |Join(NonEmpty(pieces), sep)| <= |Join(pieces, sep)|
  {
    if |pieces| > 0 {
      JoinTidyLength(pieces[1..], sep);
      if pieces[0] != [] {
        assert NonEmpty(pieces)[1..] == NonEmpty(pieces[1..]);
      }
    }
  }

  lemma TidyLength<T>(s: seq<T>, sep: T)
    ensures |Join(NonEmpty(Split(s, sep)), sep)| <= |s|
  {
    JoinTidyLength(Split(s, sep), sep);
    JoinSplit(s, sep);
  }

  lemma {:induction false} JoinConcat<T>(a: seq<seq<T>>, b: seq<seq<T>>, sep: T)
    requires a != [] && b != []
    ensures Join(a + b, sep) == Join(a, sep) + [sep] + Join(b, sep)
  {
    assert (a + b)[1..] == a[1..] + b;
    if |a| == 1 {
      assert a[1..] + b == b;
    } else {
      JoinConcat(a[1..], b, sep);
      assert a[0] + [sep] + (Join(a[1..], sep) + [sep] + Join(b, sep)) ==
             (a[0] + [sep] + Join(a[1..], sep)) + [sep] + Join(b, sep);
    }
  }

  lemma {:induction false} SplitConcat<T>(a: seq<T>, b: seq<T>, sep: T)
    ensures Split(a + [sep] + b, sep) == Split(a, sep) + Split(b, sep)
  {
    var s := a + [sep] + b;
    if a == [] {
      assert s == [sep] + b && s[1..] == b;
    } else {
      assert s[1..] == a[1..] + [sep] + b;
      SplitConcat(a[1..], b, sep);
    }
  }

  lemma {:induction false} ReverseConcat<T>(a: seq<T>, b: seq<T>)
    ensures Reverse(a + b) == Reverse(b) + Reverse(a)
  {
    ReverseAt(a);
    ReverseAt(b);
    ReverseAt(a + b);
  }
}
