/** The content digest of a set of names: 64-bit FNV-1a per name, folded with XOR. */
module Digest {
  import opened Bytes
  import Utf8

  const U64: nat := 0x1_0000_0000_0000_0000
  type u64 = n: nat | n < U64
  const FNV_OFFSET: u64 := 0xcbf2_9ce4_8422_2325
  const FNV_PRIME: u64 := 0x0000_0100_0000_01b3

  // ---- Bitwise XOR on numbers ----

  function Xor(a: nat, b: nat): nat {
    if a == 0 && b == 0 then 0
    else 2 * Xor(a / 2, b / 2) + (if a % 2 == b % 2 then 0 else 1)
  }

  lemma XorHalves(a: nat, b: nat)
    ensures Xor(a, b) / 2 == Xor(a / 2, b / 2)
    ensures Xor(a, b) % 2 == if a % 2 == b % 2 then 0 else 1
  {
    var h := Xor(a / 2, b / 2);
    assert (2 * h) / 2 == h && (2 * h + 1) / 2 == h;
  }

  lemma {:induction false} XorSwap(a: nat, b: nat, c: nat)
    ensures Xor(Xor(a, b), c) == Xor(Xor(a, c), b)
  {
    if a != 0 || b != 0 || c != 0 {
      XorSwap(a / 2, b / 2, c / 2);
      XorHalves(a, b);
      XorHalves(a, c);
    }
  }

  function Pow2(w: nat): nat { if w == 0 then 1 else 2 * Pow2(w - 1) }

  lemma {:induction false} XorBound(a: nat, b: nat, w: nat)
    requires a < Pow2(w) && b < Pow2(w)
    ensures Xor(a, b) < Pow2(w)
  {
    if w > 0 { XorBound(a / 2, b / 2, w - 1); }
  }

  lemma {:induction false} Pow2Add(a: nat, b: nat)
    ensures Pow2(a + b) == Pow2(a) * Pow2(b)
  {
    if a > 0 { Pow2Add(a - 1, b); }
  }

  lemma Pow2Of64()
    ensures Pow2(64) == U64
  {
    assert Pow2(4) == 16;
    Pow2Add(4, 4);
    Pow2Add(8, 8);
    Pow2Add(16, 16);
    Pow2Add(32, 32);
  }

  function Xor64(a: u64, b: u64): u64 {
    Pow2Of64();
    XorBound(a, b, 64);
    Xor(a, b)
  }

  // ---- FNV-1a ----

  /** One byte into the hash: XOR, then a wrapping 64-bit multiplication. */
  function FnvStep(h: u64, b: byte): u64 {
    Xor64(h, b) * FNV_PRIME % U64
  }

  function Fnv1a(bytes: seq<byte>): u64 {
    if bytes == [] then FNV_OFFSET else FnvStep(Fnv1a(bytes[..|bytes| - 1]), bytes[|bytes| - 1])
  }

  function HashName(name: string): u64 { Fnv1a(Utf8.Encode(name)) }

  method ComputeFnv1a(name: string) returns (h: u64)
    ensures h == HashName(name)
  {
    var bytes := Utf8.Encode(name);
    h := FNV_OFFSET;
    for i := 0 to |bytes|
      invariant h == Fnv1a(bytes[..i])
    {
      assert bytes[..i + 1][..i] == bytes[..i];
      h := FnvStep(h, bytes[i]);
    }
    assert bytes[..|bytes|] == bytes;
  }

  lemma {:induction false} XorZero(a: nat)
    ensures Xor(a, 0) == a
  {
    if a > 0 { XorZero(a / 2); }
  }

  lemma XorOffset()
    ensures Xor(0xcbf2_9ce4_8422_2325, 97) == 0xcbf2_9ce4_8422_2344
  {
    XorZero(14695981039346656037 / 128);
    assert Xor(14695981039346656037 / 64, 1) == 2 * (14695981039346656037 / 128) + 1;
    assert Xor(14695981039346656037 / 32, 3) == 2 * Xor(14695981039346656037 / 64, 1);
    assert Xor(14695981039346656037 / 16, 6) == 2 * Xor(14695981039346656037 / 32, 3);
    assert Xor(14695981039346656037 / 8, 12) == 2 * Xor(14695981039346656037 / 16, 6);
    assert Xor(14695981039346656037 / 4, 24) == 2 * Xor(14695981039346656037 / 8, 12) + 1;
    assert Xor(14695981039346656037 / 2, 48) == 2 * Xor(14695981039346656037 / 4, 24);
  }

  lemma StepIs(h: u64, b: byte, x: nat)
    requires Xor(h, b) == x
    ensures FnvStep(h, b) == x * FNV_PRIME % U64
  {}

  lemma ProductOfA(x: nat)
    requires x == 0xcbf2_9ce4_8422_2344
    ensures x * FNV_PRIME % U64 == 0xaf63_dc4c_8601_ec8c
  {
    assert x * FNV_PRIME == 875948729822 * U64 + 0xaf63_dc4c_8601_ec8c;
  }

  lemma OneByte(bytes: seq<byte>)
    requires |bytes| == 1
    ensures Fnv1a(bytes) == FnvStep(FNV_OFFSET, bytes[0])
  {
    assert bytes[..0] == [];
  }

  lemma EncodedA(s: string)
    requires s == "a"
    ensures Utf8.Encode(s) == [97]
  {
    assert s[1..] == "" && s[0] as int == 97;
  }

  lemma HashOfA(bytes: seq<byte>, h: u64, b: byte)
    requires bytes == [b] && h == FNV_OFFSET && b == 97
    ensures Fnv1a(bytes) == 0xaf63_dc4c_8601_ec8c
  {
    var x := Xor(h, b);
    OneByte(bytes);
    StepIs(h, b, x);
    XorOffset();
    ProductOfA(x);
  }

  /** The published test values of 64-bit FNV-1a for the empty string and for "a". */
  lemma KnownHashes(empty: string, a: string)
    requires empty == "" && a == "a"
    ensures HashName(empty) == 0xcbf2_9ce4_8422_2325 && HashName(a) == 0xaf63_dc4c_8601_ec8c
  {
    EncodedA(a);
    HashOfA(Utf8.Encode(a), FNV_OFFSET, 97);
  }

  // ---- The fold over a set ----

  /** Fold a set of names into an accumulator, in some order. */
  ghost function FoldSet<B>(f: (string, B) -> B, unit: B, names: set<string>): B {
    if names == {} then unit
    else
      var x :| x in names;
      f(x, FoldSet(f, unit, names - {x}))
  }

  ghost predicate Commutes<B(!new)>(f: (string, B) -> B) {
    forall x, y, b :: f(x, f(y, b)) == f(y, f(x, b))
  }

  /** The order does not matter: any member may be taken last. */
  lemma {:induction false} FoldRemove<B(!new)>(f: (string, B) -> B, unit: B, names: set<string>, x: string)
    requires Commutes(f) && x in names
    ensures FoldSet(f, unit, names) == f(x, FoldSet(f, unit, names - {x}))
    decreases |names|
  {
    var y :| y in names && FoldSet(f, unit, names) == f(y, FoldSet(f, unit, names - {y}));
    if y != x {
      FoldRemove(f, unit, names - {y}, x);
      FoldRemove(f, unit, names - {x}, y);
      assert names - {y} - {x} == names - {x} - {y};
    }
  }

  /** XOR a name's hash into an accumulator. */
  function XorWith(hash: string -> u64): (string, u64) -> u64 {
    (name, acc) => Xor64(acc, hash(name))
  }

  lemma XorCommutes(hash: string -> u64)
    ensures Commutes(XorWith(hash))
  {
    var f := XorWith(hash);
    forall x, y, b: u64 ensures f(x, f(y, b)) == f(y, f(x, b)) {
      XorSwap(b, hash(y), hash(x));
    }
  }

  ghost function XorAll(hash: string -> u64, names: set<string>): u64 {
    FoldSet(XorWith(hash), 0, names)
  }

  lemma XorRemove(hash: string -> u64, names: set<string>, x: string)
    requires x in names
    ensures XorAll(hash, names) == Xor64(XorAll(hash, names - {x}), hash(x))
  {
    XorCommutes(hash);
    FoldRemove(XorWith(hash), 0, names, x);
  }

  /** The fingerprint of a set of names. */
  ghost function Fingerprint(names: set<string>): u64 { XorAll(HashName, names) }

  ghost function Elements(names: seq<string>): set<string> { set n | n in names }

  ghost predicate Distinct(s: seq<string>) {
    forall i, j :: 0 <= i < j < |s| ==> s[i] != s[j]
  }

  lemma ElementsNext(names: seq<string>, i: nat)
    requires i < |names| && Distinct(names)
    ensures Elements(names[..i + 1]) - {names[i]} == Elements(names[..i])
    ensures names[i] in Elements(names[..i + 1])
  {
    assert names[..i + 1] == names[..i] + [names[i]];
  }

  /** The running XOR over a list of names. */
  ghost function XorList(hash: string -> u64, names: seq<string>): u64 {
    if names == [] then 0
    else Xor64(XorList(hash, names[..|names| - 1]), hash(names[|names| - 1]))
  }

  /** Without repetitions, the running XOR is a function of the set. */
  lemma {:induction false} XorListIsSet(hash: string -> u64, names: seq<string>)
    requires Distinct(names)
    ensures XorList(hash, names) == XorAll(hash, Elements(names))
  {
    if names != [] {
      var n := |names| - 1;
      XorListIsSet(hash, names[..n]);
      ElementsNext(names, n);
      assert names[..n + 1] == names;
      XorRemove(hash, Elements(names), names[n]);
    }
  }

  /** Count the visited names and XOR their hashes, in visiting order. */
  method Summarize(names: seq<string>) returns (count: nat, fingerprint: u64)
    ensures count == |names| && fingerprint == XorList(HashName, names)
  {
    count, fingerprint := 0, 0;
    for i := 0 to |names|
      invariant count == i && fingerprint == XorList(HashName, names[..i])
    {
      var h := ComputeFnv1a(names[i]);
      assert names[..i + 1][..i] == names[..i];
      count, fingerprint := count + 1, Xor64(fingerprint, h);
    }
    assert names[..|names|] == names;
  }
}
