/** Bytes, fixed-width big-endian and little-endian numbers, and the byte-wise order of slices. */
module Bytes {

  type byte = n: int | 0 <= n < 256

  function Pow256(w: nat): nat {
    if w == 0 then 1 else 256 * Pow256(w - 1)
  }

  /** The `w` low bytes of `n`, most significant first. */
  function BE(n: nat, w: nat): (r: seq<byte>)
    ensures |r| == w
  {
    if w == 0 then [] else BE(n / 256, w - 1) + [n % 256]
  }

  /** The `w` low bytes of `n`, least significant first. */
  function LE(n: nat, w: nat): (r: seq<byte>)
    ensures |r| == w
  {
    if w == 0 then [] else [n % 256] + LE(n / 256, w - 1)
  }

  function FromBE(s: seq<byte>): nat {
    if s == [] then 0 else 256 * FromBE(s[..|s| - 1]) + s[|s| - 1]
  }

  function FromLE(s: seq<byte>): nat {
    if s == [] then 0 else s[0] + 256 * FromLE(s[1..])
  }

  lemma {:induction false} FromBEBound(s: seq<byte>)
    ensures FromBE(s) < Pow256(|s|)
  {
    if s != [] { FromBEBound(s[..|s| - 1]); }
  }

  lemma {:induction false} FromBEOfBE(n: nat, w: nat)
    requires n < Pow256(w)
    ensures FromBE(BE(n, w)) == n
  {
    if w > 0 {
      FromBEOfBE(n / 256, w - 1);
      assert BE(n, w)[..w - 1] == BE(n / 256, w - 1);
    }
  }

  lemma {:induction false} FromLEOfLE(n: nat, w: nat)
    requires n < Pow256(w)
    ensures FromLE(LE(n, w)) == n
  {
    if w > 0 {
      FromLEOfLE(n / 256, w - 1);
      assert LE(n, w)[1..] == LE(n / 256, w - 1);
    }
  }

  /** `n` without its `i` low bytes. */
  function Shr(n: nat, i: nat): nat { if i == 0 then n else Shr(n / 256, i - 1) }

  /** Little-endian: byte `i` is what is left after `i` bytes were taken off. */
  lemma {:induction false} LEAt(n: nat, w: nat, i: nat)
    requires i < w
    ensures LE(n, w)[i] == Shr(n, i) % 256
  {
    if i > 0 { LEAt(n / 256, w - 1, i - 1); }
  }

  lemma {:induction false} FromLEBound(s: seq<byte>)
    ensures FromLE(s) < Pow256(|s|)
  {
    if s != [] { FromLEBound(s[1..]); }
  }

  lemma {:induction false} LEOfFromLE(s: seq<byte>)
    ensures LE(FromLE(s), |s|) == s
  {
    if s != [] {
      LEOfFromLE(s[1..]);
      LowByte(s[0], FromLE(s[1..]));
      assert s == [s[0]] + s[1..];
    }
  }

  lemma LowByte(b: byte, n: nat)
    ensures (b + 256 * n) % 256 == b && (b + 256 * n) / 256 == n
  {}

  /** The order Rust gives byte slices: the first difference decides. */
  predicate SliceLe(a: seq<byte>, b: seq<byte>) {
    if a == [] then true
    else if b == [] then false
    else a[0] < b[0] || (a[0] == b[0] && SliceLe(a[1..], b[1..]))
  }

  lemma {:induction false} SliceLeSnoc(a: seq<byte>, b: seq<byte>)
    requires |a| == |b| > 0
    ensures var n := |a| - 1;
            SliceLe(a, b) <==> (SliceLe(a[..n], b[..n]) && a[..n] != b[..n]) || (a[..n] == b[..n] && a[n] <= b[n])
  {
    var n := |a| - 1;
    if n > 0 {
      SliceLeSnoc(a[1..], b[1..]);
      assert a[1..][..n - 1] == a[..n][1..] && b[1..][..n - 1] == b[..n][1..];
      assert a[..n] == [a[0]] + a[..n][1..] && b[..n] == [b[0]] + b[..n][1..];
    }
  }

  lemma {:induction false} FromBEInjective(a: seq<byte>, b: seq<byte>)
    requires |a| == |b| && FromBE(a) == FromBE(b)
    ensures a == b
  {
    if a != [] {
      var n := |a| - 1;
      FromBEInjective(a[..n], b[..n]);
      assert a == a[..n] + [a[n]] && b == b[..n] + [b[n]];
    }
  }

  /** Big-endian keys of one width compare as bytes exactly as they compare as numbers. */
  lemma {:induction false} SliceLeIsNumeric(a: seq<byte>, b: seq<byte>)
    requires |a| == |b|
    ensures SliceLe(a, b) <==> FromBE(a) <= FromBE(b)
  {
    if a != [] {
      var n := |a| - 1;
      SliceLeSnoc(a, b);
      SliceLeIsNumeric(a[..n], b[..n]);
      if FromBE(a[..n]) == FromBE(b[..n]) { FromBEInjective(a[..n], b[..n]); }
    }
  }
}
