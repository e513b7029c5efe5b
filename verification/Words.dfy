/** Machine words, big-endian encodings, length-prefixed framing and the readers that undo them. */
module Words {
  import opened Wrappers

  const TWO_32: int := 0x1_0000_0000
  const U64_MAX: int := 0xFFFF_FFFF_FFFF_FFFF
  const U128_MAX: int := 0xFFFF_FFFF_FFFF_FFFF_FFFF_FFFF_FFFF_FFFF

  type byte = b: int | 0 <= b < 256
  type u64 = v: int | 0 <= v <= U64_MAX
  type u128 = v: int | 0 <= v <= U128_MAX
  type Bytes = seq<byte>
  type Bytes32 = b: Bytes | |b| == 32 witness Zeros(32)

  /** A 32-byte hash. Nothing is assumed about it: where a result needs two digests to differ, it
      says which two pre-images must not collide. */
  type Hash = Bytes -> Bytes32

  function Zeros(n: nat): (z: Bytes)
    ensures |z| == n
  {
    seq(n, _ => 0)
  }

  /** `saturating_add` on `u64`. */
  function SatAdd64(a: u64, b: u64): u64 {
    if a + b > U64_MAX then U64_MAX else a + b
  }

  /** `saturating_sub` on `u64`. */
  function SatSub64(a: u64, b: u64): u64 {
    if a < b then 0 else a - b
  }

  /** `saturating_add` on `u128`. */
  function SatAdd128(a: u128, b: u128): u128 {
    if a + b > U128_MAX then U128_MAX else a + b
  }

  function Min(a: u64, b: u64): u64 {
    if a <= b then a else b
  }

  /** The bytes of an ASCII text: one per character. */
  function Ascii(s: string): (b: Bytes)
    ensures |b| == |s|
  {
    seq(|s|, i requires 0 <= i < |s| => (s[i] as int) % 256)
  }

  // ── Big-endian integers ────────────────────────────────────────────────────

  function Pow256(n: nat): (p: nat)
    ensures p > 0
  {
    if n == 0 then 1 else 256 * Pow256(n - 1)
  }

  lemma WordSizes()
    ensures Pow256(4) == TWO_32
    ensures Pow256(8) == U64_MAX + 1
    ensures Pow256(16) == U128_MAX + 1
  {
  }

  /** The low `n` bytes of `v`, most significant first. */
  function Be(v: nat, n: nat): (b: Bytes)
    ensures |b| == n
  {
    if n == 0 then [] else Be(v / 256, n - 1) + [v % 256]
  }

  /** The number `b` spells, most significant byte first. */
  function FromBe(b: Bytes): (v: nat)
    ensures v < Pow256(|b|)
  {
    if b == [] then 0 else FromBe(b[..|b| - 1]) * 256 + b[|b| - 1]
  }

  lemma {:induction false} BeRoundTrip(v: nat, n: nat)
    requires v < Pow256(n)
    ensures FromBe(Be(v, n)) == v
  {
    if n > 0 {
      var head := Be(v / 256, n - 1);
      assert Be(v, n)[..n - 1] == head;
      BeRoundTrip(v / 256, n - 1);
    }
  }

  // ── Framing ────────────────────────────────────────────────────────────────

  /** `bytes` behind its length, cast to 32 bits: a length of 2^32 or more wraps. */
  function LenPrefixed(bytes: Bytes): Bytes {
    Be(|bytes| % TWO_32, 4) + bytes
  }

  lemma AppendAssoc(a: Bytes, b: Bytes, c: Bytes)
    ensures (a + b) + c == a + (b + c)
  {
  }

  /** Append `bytes` to `out`. The second clause lets a chain of appends be compared with a sum
      that is nested the other way. */
  method Extend(out: Bytes, bytes: Bytes) returns (r: Bytes)
    ensures r == out + bytes
    ensures forall tail: Bytes {:trigger r + tail} :: r + tail == out + (bytes + tail)
  {
    r := out + bytes;
    forall tail: Bytes
      ensures r + tail == out + (bytes + tail)
    {
    }
  }

  /** Append `bytes` to `out` behind its length. */
  method PushLenPrefixed(out: Bytes, bytes: Bytes) returns (r: Bytes)
    ensures r == out + LenPrefixed(bytes)
    ensures forall tail: Bytes {:trigger r + tail} :: r + tail == out + (LenPrefixed(bytes) + tail)
  {
    r := Extend(out, Be(|bytes| % TWO_32, 4));
    r := Extend(r, bytes);
    assert r == r + [];
    assert r == out + LenPrefixed(bytes);
    forall tail: Bytes
      ensures r + tail == out + (LenPrefixed(bytes) + tail)
    {
    }
  }

  /** Whether a length survives the 32-bit cast. */
  predicate Fits(bytes: Bytes) {
    |bytes| < TWO_32
  }

  // ── Readers ────────────────────────────────────────────────────────────────

  function TakeBytes(s: Bytes, n: nat): Option<(Bytes, Bytes)> {
    if |s| < n then None else Some((s[..n], s[n..]))
  }

  function TakeBe(s: Bytes, n: nat): (r: Option<(nat, Bytes)>)
    ensures r.Some? ==> r.value.0 < Pow256(n)
  {
    if |s| < n then None else Some((FromBe(s[..n]), s[n..]))
  }

  function TakeU64(s: Bytes): Option<(u64, Bytes)> {
    WordSizes();
    var (v, rest) :- TakeBe(s, 8);
    Some((v, rest))
  }

  function TakeU128(s: Bytes): Option<(u128, Bytes)> {
    WordSizes();
    var (v, rest) :- TakeBe(s, 16);
    Some((v, rest))
  }

  function TakeLenPrefixed(s: Bytes): Option<(Bytes, Bytes)> {
    var (n, rest) :- TakeBe(s, 4);
    TakeBytes(rest, n)
  }

  function TakeBytes32(s: Bytes): Option<(Bytes32, Bytes)> {
    var (b, rest) :- TakeLenPrefixed(s);
    if |b| == 32 then Some((b, rest)) else None
  }

  lemma TakeBeReads(v: nat, n: nat, rest: Bytes)
    requires v < Pow256(n)
    ensures TakeBe(Be(v, n) + rest, n) == Some((v, rest))
  {
    var s := Be(v, n) + rest;
    assert s[..n] == Be(v, n);
    assert s[n..] == rest;
    BeRoundTrip(v, n);
  }

  lemma TakeU64Reads(v: u64, rest: Bytes)
    ensures TakeU64(Be(v, 8) + rest) == Some((v, rest))
  {
    WordSizes();
    TakeBeReads(v, 8, rest);
  }

  lemma TakeU128Reads(v: u128, rest: Bytes)
    ensures TakeU128(Be(v, 16) + rest) == Some((v, rest))
  {
    WordSizes();
    TakeBeReads(v, 16, rest);
  }

  /** A framed field is read back exactly, and what follows it is untouched. */
  lemma TakeLenPrefixedReads(bytes: Bytes, rest: Bytes)
    requires Fits(bytes)
    ensures TakeLenPrefixed(LenPrefixed(bytes) + rest) == Some((bytes, rest))
  {
    WordSizes();
    var prefix := Be(|bytes|, 4);
    assert LenPrefixed(bytes) + rest == prefix + (bytes + rest);
    TakeBeReads(|bytes|, 4, bytes + rest);
    assert (bytes + rest)[..|bytes|] == bytes;
    assert (bytes + rest)[|bytes|..] == rest;
  }

  /** Two framed fields that spell the same bytes are the same field with the same remainder. */
  lemma FramedFieldsAgree(a: Bytes, restA: Bytes, b: Bytes, restB: Bytes)
    requires Fits(a) && Fits(b)
    requires LenPrefixed(a) + restA == LenPrefixed(b) + restB
    ensures a == b && restA == restB
  {
    TakeLenPrefixedReads(a, restA);
    TakeLenPrefixedReads(b, restB);
  }

  /** A field of any length before a remainder shorter than 2^32 bytes: the total length tells how often the prefix has
      wrapped, so the field and the remainder are determined. */
  lemma ShortRemaindersFixTheField(a: Bytes, restA: Bytes, b: Bytes, restB: Bytes)
    requires Fits(restA) && Fits(restB) && LenPrefixed(a) + restA == LenPrefixed(b) + restB
    ensures a == b && restA == restB
  {
    var s, t := LenPrefixed(a) + restA, LenPrefixed(b) + restB;
    var n, m := |a| % TWO_32, |b| % TWO_32;
    assert s[..4] == Be(n, 4) && t[..4] == Be(m, 4);
    WordSizes();
    BeRoundTrip(n, 4);
    BeRoundTrip(m, 4);
    assert |a| + |restA| == |b| + |restB|;
    assert |a| == |b|;
    assert s[4..4 + |a|] == a && t[4..4 + |a|] == b;
    assert s[4 + |a|..] == restA && t[4 + |a|..] == restB;
  }

  /** From 2^32 bytes on a field shares its framed bytes with a shorter one before a suitable remainder. */
  lemma LongFieldsAlias(a: Bytes)
    requires !Fits(a)
    ensures var n := |a| % TWO_32;
            Fits(a[..n]) && a[..n] != a && LenPrefixed(a) + [] == LenPrefixed(a[..n]) + a[n..]
  {
    hide Be;
    var n := |a| % TWO_32;
    assert a == a[..n] + a[n..];
  }

  /** Framing is injective exactly below 2^32 bytes: every longer field shares its framed bytes with a field that fits,
      and no field that fits does so with another. */
  lemma FramingIsAmbiguousExactlyFromTwo32(a: Bytes)
    ensures !Fits(a) <==>
              exists b: Bytes, restA: Bytes, restB: Bytes ::
                Fits(b) && b != a && LenPrefixed(a) + restA == LenPrefixed(b) + restB
  {
    hide LenPrefixed, Fits;
    if Fits(a) {
      forall b: Bytes, restA: Bytes, restB: Bytes | Fits(b) && LenPrefixed(a) + restA == LenPrefixed(b) + restB
        ensures b == a
      {
        FramedFieldsAgree(a, restA, b, restB);
      }
    } else {
      LongFieldsAlias(a);
    }
  }
}
