/** Machine-level vocabulary shared by every module: bytes, unsigned 64-bit words,
    big-endian integers and the Option/Result wrappers that stand for Go's
    `(value, error)` pairs and Python's exceptions. */
module Base {

  /** 2^64: the modulus of Go's uint64 arithmetic. */
  const TwoTo64: int := 0x1_0000_0000_0000_0000

  type byte = x: int | 0 <= x < 256
  type u64 = x: int | 0 <= x < 0x1_0000_0000_0000_0000

  const MaxU64: u64 := 0xFFFF_FFFF_FFFF_FFFF

  datatype Option<T> = None | Some(value: T)

  /** A Go `(value, error)` return or a Python call that may raise; `msg` is the
      error text the source produces. */
  datatype Result<T> = Ok(value: T) | Err(msg: string)

  /** Go's uint64 addition, which wraps around modulo 2^64. */
  function AddU64(a: u64, b: u64): (r: u64)
    ensures r == a + b || r == a + b - TwoTo64
    ensures r < a <==> a + b >= TwoTo64
  {
    (a + b) % TwoTo64
  }

  /** Go's uint64 subtraction, which wraps around modulo 2^64. */
  function SubU64(a: u64, b: u64): (r: u64)
    ensures b <= a ==> r == a - b
    ensures a < b ==> r == a - b + TwoTo64 && r > a
  {
    (a - b) % TwoTo64
  }

  function Pow(b: nat, e: nat): (r: nat)
    ensures b > 0 ==> r > 0
  {
    if e == 0 then 1 else b * Pow(b, e - 1)
  }

  lemma {:induction false} PowSquare(b: nat, e: nat)
    ensures Pow(b * b, e) == Pow(b, 2 * e)
  {
    if e > 0 {
      PowSquare(b, e - 1);
    }
  }

  /** The powers that bound a uint64: 256^8 == 16^16 == 2^64. */
  lemma U64Powers()
    ensures Pow(256, 8) == TwoTo64 && Pow(16, 16) == TwoTo64
  {
    assert Pow(256, 2) == 0x1_0000;
    assert Pow(256, 4) == 0x1_0000_0000 by { PowAdd(256, 2, 2); }
    assert Pow(256, 8) == TwoTo64 by { PowAdd(256, 4, 4); }
    PowSquare(16, 8);
  }

  lemma {:induction false} PowAdd(b: nat, e1: nat, e2: nat)
    ensures Pow(b, e1 + e2) == Pow(b, e1) * Pow(b, e2)
  {
    if e1 > 0 {
      PowAdd(b, e1 - 1, e2);
      MulAssoc(b, Pow(b, e1 - 1), Pow(b, e2));
    }
  }

  lemma MulAssoc(a: int, b: int, c: int)
    ensures a * (b * c) == (a * b) * c
  {
  }

  /** Big-endian value of a byte string: Go's binary.BigEndian and Python's
      `int.from_bytes(bs, byteorder="big")` (the empty string is 0). */
  function BigEndian(bs: seq<byte>): nat
  {
    if bs == [] then 0 else BigEndian(bs[..|bs| - 1]) * 256 + bs[|bs| - 1]
  }

  /** The w-byte big-endian encoding of n, keeping the low 8*w bits. */
  function BigEndianBytes(n: nat, w: nat): (r: seq<byte>)
    ensures |r| == w
  {
    if w == 0 then [] else BigEndianBytes(n / 256, w - 1) + [n % 256]
  }

  lemma {:induction false} BigEndianBound(bs: seq<byte>)
    ensures BigEndian(bs) < Pow(256, |bs|)
  {
    if bs != [] {
      BigEndianBound(bs[..|bs| - 1]);
    }
  }

  /** Encoding then decoding w bytes returns every n that fits in w bytes. */
  lemma {:induction false} BigEndianRoundTrip(n: nat, w: nat)
    requires n < Pow(256, w)
    ensures BigEndian(BigEndianBytes(n, w)) == n
  {
    if w > 0 {
      var bs := BigEndianBytes(n, w);
      assert bs[..|bs| - 1] == BigEndianBytes(n / 256, w - 1);
      BigEndianRoundTrip(n / 256, w - 1);
    }
  }

  /** Decoding then encoding returns the bytes themselves. */
  lemma {:induction false} BigEndianBytesOfValue(bs: seq<byte>)
    ensures BigEndianBytes(BigEndian(bs), |bs|) == bs
  {
    if bs != [] {
      var init := bs[..|bs| - 1];
      BigEndianBytesOfValue(init);
      assert bs == init + [bs[|bs| - 1]];
    }
  }

  /** Leading zero bytes do not change the big-endian value. */
  lemma {:induction false} BigEndianLeadingZeros(k: nat, bs: seq<byte>)
    ensures BigEndian(seq(k, _ => 0) + bs) == BigEndian(bs)
  {
    if bs == [] {
      ZerosValue(k);
      assert seq(k, _ => 0) + bs == seq(k, _ => 0);
    } else {
      var init := bs[..|bs| - 1];
      assert (seq(k, _ => 0) + bs)[..|seq(k, _ => 0) + bs| - 1] == seq(k, _ => 0) + init;
      BigEndianLeadingZeros(k, init);
    }
  }

  lemma {:induction false} ZerosValue(k: nat)
    ensures BigEndian(seq(k, _ => 0)) == 0
  {
    if k > 0 {
      assert seq(k, _ => 0)[..k - 1] == seq(k - 1, _ => 0);
      ZerosValue(k - 1);
    }
  }

  /** Python's `seq[i:j]` for non-negative bounds: out-of-range bounds are
      clamped to the length instead of raising. */
  function Slice<T>(s: seq<T>, i: nat, j: nat): (r: seq<T>)
    ensures i <= j <= |s| ==> r == s[i..j]
    ensures |r| == if i >= |s| || j <= i then 0 else (if j <= |s| then j else |s|) - i
  {
    var lo := if i <= |s| then i else |s|;
    var hi := if j <= |s| then j else |s|;
    if lo <= hi then s[lo..hi] else []
  }

  /** Python's `xs[idx]` for any integer index: negative indices count from the
      end, anything outside [-len, len) raises IndexError. */
  function PyIndex<T>(xs: seq<T>, idx: int): (r: Option<T>)
    ensures r.Some? <==> -|xs| <= idx < |xs|
    ensures 0 <= idx < |xs| ==> r == Some(xs[idx])
    ensures -|xs| <= idx < 0 ==> r == Some(xs[|xs| + idx])
  {
    if 0 <= idx < |xs| then Some(xs[idx])
    else if -|xs| <= idx < 0 then Some(xs[|xs| + idx])
    else None
  }
}
