/**
 * Fixed-width unsigned words and little-endian reads from a byte image.
 * The C++ code works on `std::uint64_t` (wrapping), `unsigned char`,
 * `unsigned short`, `unsigned int` and `int`; Dafny's integers are unbounded,
 * so every wrap-around is written out here.
 */
module Words {
  import opened Wrappers

  const TWO_8: int := 0x100
  const TWO_16: int := 0x1_0000
  const TWO_31: int := 0x8000_0000
  const TWO_32: int := 0x1_0000_0000
  const TWO_64: int := 0x1_0000_0000_0000_0000

  type Byte = b: int | 0 <= b < 0x100
  type U64 = x: int | 0 <= x < 0x1_0000_0000_0000_0000

  /** `a + b` on `std::uint64_t`. */
  function Add64(a: U64, b: U64): U64 { (a + b) % TWO_64 }

  /** `a - b` on `std::uint64_t`. */
  function Sub64(a: U64, b: U64): U64 { (a - b) % TWO_64 }

  /** `a * b` on `std::uint64_t`. */
  function Mul64(a: U64, b: U64): U64 { (a * b) % TWO_64 }

  /** The conversion `(std::uint64_t)v` of a signed value. */
  function ToU64(v: int): U64 { v % TWO_64 }

  /** `offset += base` when the dump is asked to use a base. */
  function Biased(offset: U64, useBase: bool, base: U64): U64
  {
    if useBase then Add64(offset, base) else offset
  }

  lemma AddSubCancel(a: U64, b: U64)
    ensures Sub64(Add64(b, a), b) == a
    ensures Add64(b, Sub64(a, b)) == a
  {
    if a + b < TWO_64 {
      assert Add64(b, a) == a + b;
    } else {
      assert Add64(b, a) == a + b - TWO_64;
      assert (a - TWO_64) % TWO_64 == a;
    }
    if b <= a {
      assert Sub64(a, b) == a - b;
    } else {
      assert Sub64(a, b) == a - b + TWO_64;
      assert (a + TWO_64) % TWO_64 == a;
    }
  }

  /** Unsigned little-endian value of a byte string. */
  function LittleEndian(s: seq<Byte>): (v: nat)
    ensures v < Pow256(|s|)
  {
    if s == [] then 0 else s[0] + 0x100 * LittleEndian(s[1..])
  }

  function Pow256(n: nat): (p: nat)
    ensures p >= 1
  {
    if n == 0 then 1 else 0x100 * Pow256(n - 1)
  }

  lemma SubSlice<T>(s: seq<T>, from: nat, to: nat, a: nat, b: nat)
    requires from <= to <= |s| && a <= b <= to - from
    ensures s[from..to][a..b] == s[from + a..from + b]
  {
    var l, r := s[from..to][a..b], s[from + a..from + b];
    assert |l| == |r|;
    forall i | 0 <= i < |l| ensures l[i] == r[i] {
      assert l[i] == s[from..to][a + i] == s[from + a + i];
    }
  }

  /** A suffix that is `a + b` splits into a window holding `a` and a suffix holding `b`. */
  lemma SuffixSplit<T>(s: seq<T>, k: nat, a: seq<T>, b: seq<T>)
    requires k <= |s| && s[k..] == a + b
    ensures k + |a| <= |s| && s[k..k + |a|] == a && s[k + |a|..] == b
  {
    forall i | 0 <= i < |a| ensures s[k..k + |a|][i] == a[i] {
      assert s[k..k + |a|][i] == s[k + i] == s[k..][i];
    }
    forall i | 0 <= i < |b| ensures s[k + |a|..][i] == b[i] {
      assert s[k + |a|..][i] == s[k + |a| + i] == s[k..][|a| + i];
    }
  }

  lemma Pow256Table()
    ensures Pow256(0) == 1 && Pow256(1) == TWO_8 && Pow256(2) == TWO_16
    ensures Pow256(4) == TWO_32 && Pow256(8) == TWO_64
  {
    assert Pow256(4) == TWO_32;
    assert Pow256(8) == TWO_32 * Pow256(4) by {
      assert Pow256(8) == TWO_8 * TWO_8 * TWO_8 * TWO_8 * Pow256(4);
    }
  }

  /** Little-endian encoding of `v` in `n` bytes (the inverse of LittleEndian). */
  function ToLittleEndian(v: nat, n: nat): (s: seq<Byte>)
    ensures |s| == n
  {
    if n == 0 then [] else [v % 0x100] + ToLittleEndian(v / 0x100, n - 1)
  }

  lemma {:induction false} LittleEndianRoundTrip(v: nat, n: nat)
    requires v < Pow256(n)
    ensures LittleEndian(ToLittleEndian(v, n)) == v
  {
    if n > 0 {
      var s := ToLittleEndian(v, n);
      assert s[1..] == ToLittleEndian(v / 0x100, n - 1);
      assert v / 0x100 < Pow256(n - 1);
      LittleEndianRoundTrip(v / 0x100, n - 1);
    }
  }

  /** Every byte string is the encoding of its own little-endian value. */
  lemma {:induction false} BytesRoundTrip(s: seq<Byte>)
    ensures ToLittleEndian(LittleEndian(s), |s|) == s
  {
    if s != [] {
      var v := LittleEndian(s);
      assert v % 0x100 == s[0] && v / 0x100 == LittleEndian(s[1..]);
      BytesRoundTrip(s[1..]);
    }
  }

  /**
   * `file.read` of an `n`-byte little-endian integer at `pos`. The C++ code
   * never checks the stream state; here a read past the end is `None`.
   */
  function ReadLE(bytes: seq<Byte>, pos: nat, n: nat): (r: Option<nat>)
    ensures r.Some? <==> pos + n <= |bytes|
    ensures r.Some? ==> r.value < Pow256(n)
  {
    if pos + n <= |bytes| then Some(WordAt(bytes, pos, n)) else None
  }

  /** The little-endian value of the `n` bytes at `pos`, read in place. */
  function WordAt(bytes: seq<Byte>, pos: nat, n: nat): (v: nat)
    requires pos + n <= |bytes|
    ensures v < Pow256(n)
    decreases n
  {
    if n == 0 then 0 else bytes[pos] + 0x100 * WordAt(bytes, pos + 1, n - 1)
  }

  /** A read is the little-endian value of the bytes it covers. */
  lemma {:induction false} ReadLEBytes(bytes: seq<Byte>, pos: nat, n: nat)
    requires pos + n <= |bytes|
    ensures ReadLE(bytes, pos, n) == Some(LittleEndian(bytes[pos..pos + n]))
    decreases n
  {
    if n > 0 {
      ReadLEBytes(bytes, pos + 1, n - 1);
      assert bytes[pos..pos + n][1..] == bytes[pos + 1..pos + n];
    }
  }

  /** Two's-complement reading of a 32-bit word (the C++ `int`). */
  function ToI32(u: nat): (i: int)
    requires u < TWO_32
    ensures -TWO_31 <= i < TWO_31
    ensures i % TWO_32 == u
  {
    if u < TWO_31 then u else u - TWO_32
  }

  /** Encoding of a C++ `int` as four little-endian bytes. */
  function I32Bytes(i: int): (s: seq<Byte>)
    ensures |s| == 4
  {
    ToLittleEndian(i % TWO_32, 4)
  }

  lemma I32RoundTrip(i: int)
    requires -TWO_31 <= i < TWO_31
    ensures ToI32(LittleEndian(I32Bytes(i))) == i
  {
    LittleEndianRoundTrip(i % TWO_32, 4);
  }
}
