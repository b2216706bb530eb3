/** Text primitives the source takes from Go's `fmt`, `strings` and
    `encoding/hex` packages and from Python's `binascii` and `int()`:
    decimal and hexadecimal rendering and parsing, trimming, prefixes. */
module Strings {
  import opened Base

  // ---------------------------------------------------------------- decimal

  predicate IsDigit(c: char) { '0' <= c <= '9' }

  predicate AllDigits(s: string) { forall i :: 0 <= i < |s| ==> IsDigit(s[i]) }

  function DigitChar(d: nat): (c: char)
    requires d < 10
    ensures IsDigit(c)
  {
    ('0' as int + d) as char
  }

  function DigitValue(c: char): nat
    requires IsDigit(c)
  {
    c as int - '0' as int
  }

  /** Go's `fmt.Sprintf("%d", n)` for a non-negative n. */
  function Decimal(n: nat): (s: string)
    ensures |s| >= 1 && AllDigits(s)
    ensures n < 10 <==> |s| == 1
  {
    if n < 10 then [DigitChar(n)] else Decimal(n / 10) + [DigitChar(n % 10)]
  }

  /** The number a string of decimal digits denotes. */
  function DecimalValue(s: string): nat
    requires AllDigits(s)
  {
    if s == [] then 0 else DecimalValue(s[..|s| - 1]) * 10 + DigitValue(s[|s| - 1])
  }

  lemma {:induction false} DecimalRoundTrip(n: nat)
    ensures DecimalValue(Decimal(n)) == n
  {
    if n >= 10 {
      var s := Decimal(n);
      assert s[..|s| - 1] == Decimal(n / 10);
      DecimalRoundTrip(n / 10);
    }
  }

  lemma {:induction false} DecimalLength(n: nat, k: nat)
    requires n < Pow(10, k)
    ensures |Decimal(n)| <= k || (k == 0 && |Decimal(n)| == 1)
  {
    if n >= 10 {
      assert k > 0;
      DecimalLength(n / 10, k - 1);
    }
  }

  function Repeat(c: char, k: nat): (r: string)
    ensures |r| == k && forall i :: 0 <= i < k ==> r[i] == c
  {
    if k == 0 then [] else Repeat(c, k - 1) + [c]
  }

  /** Go's `fmt.Sprintf("%0wd", n)`: the decimal digits, left-padded with '0' to width w. */
  function ZeroPadded(n: nat, w: nat): (s: string)
    ensures AllDigits(s)
    ensures |s| == if |Decimal(n)| < w then w else |Decimal(n)|
  {
    var d := Decimal(n);
    if |d| < w then Repeat('0', w - |d|) + d else d
  }

  lemma {:induction false} LeadingZerosValue(k: nat, s: string)
    requires AllDigits(s)
    ensures AllDigits(Repeat('0', k) + s)
    ensures DecimalValue(Repeat('0', k) + s) == DecimalValue(s)
  {
    if s == [] {
      ZerosDecimalValue(k);
      assert Repeat('0', k) + s == Repeat('0', k);
    } else {
      var init := s[..|s| - 1];
      assert (Repeat('0', k) + s)[..|Repeat('0', k) + s| - 1] == Repeat('0', k) + init;
      LeadingZerosValue(k, init);
    }
  }

  lemma {:induction false} ZerosDecimalValue(k: nat)
    ensures DecimalValue(Repeat('0', k)) == 0
  {
    if k > 0 {
      assert Repeat('0', k)[..k - 1] == Repeat('0', k - 1);
      ZerosDecimalValue(k - 1);
    }
  }

  lemma ZeroPaddedValue(n: nat, w: nat)
    ensures DecimalValue(ZeroPadded(n, w)) == n
  {
    var d := Decimal(n);
    DecimalRoundTrip(n);
    if |d| < w {
      assert ZeroPadded(n, w) == Repeat('0', w - |d|) + d;
      LeadingZerosValue(w - |d|, d);
    } else {
      assert ZeroPadded(n, w) == d;
    }
  }

  /** Appending k zeros multiplies the value by 10^k. */
  lemma {:induction false} TrailingZerosValue(s: string, k: nat)
    requires AllDigits(s)
    ensures AllDigits(s + Repeat('0', k))
    ensures DecimalValue(s + Repeat('0', k)) == DecimalValue(s) * Pow(10, k)
  {
    if k > 0 {
      var u := s + Repeat('0', k - 1);
      assert s + Repeat('0', k) == u + ['0'];
      TrailingZerosValue(s, k - 1);
      AppendZeroValue(u);
      ScaleByTen(DecimalValue(s), k);
    } else {
      assert s + Repeat('0', k) == s;
    }
  }

  lemma AppendZeroValue(u: string)
    requires AllDigits(u)
    ensures AllDigits(u + ['0'])
    ensures DecimalValue(u + ['0']) == DecimalValue(u) * 10
  {
    assert (u + ['0'])[..|u|] == u;
  }

  lemma ScaleByTen(a: nat, k: nat)
    requires k > 0
    ensures a * Pow(10, k - 1) * 10 == a * Pow(10, k)
  {
    assert Pow(10, k) == 10 * Pow(10, k - 1);
  }

  /** Deletes every occurrence of c. */
  function RemoveChar(s: string, c: char): (r: string)
    ensures c !in r
    ensures |r| <= |s|
  {
    if s == [] then [] else RemoveChar(s[..|s| - 1], c) + (if s[|s| - 1] == c then [] else [s[|s| - 1]])
  }

  lemma {:induction false} RemoveCharAppend(a: string, b: string, c: char)
    ensures RemoveChar(a + b, c) == RemoveChar(a, c) + RemoveChar(b, c)
  {
    if b != [] {
      var b' := b[..|b| - 1];
      assert (a + b)[..|a + b| - 1] == a + b';
      RemoveCharAppend(a, b', c);
    } else {
      assert a + b == a;
    }
  }

  lemma {:induction false} RemoveCharAbsent(s: string, c: char)
    requires c !in s
    ensures RemoveChar(s, c) == s
  {
    if s != [] {
      assert s == s[..|s| - 1] + [s[|s| - 1]];
      RemoveCharAbsent(s[..|s| - 1], c);
    }
  }

  // ---------------------------------------------------------------- trimming

  /** Go's `strings.TrimLeftFunc` / Python's `lstrip`: drops the longest prefix
      whose characters all satisfy `drop`. */
  function TrimLeftBy(s: string, drop: char -> bool): (r: string)
    ensures |r| <= |s| && r == s[|s| - |r|..]
    ensures r != [] ==> !drop(r[0])
    ensures forall i :: 0 <= i < |s| - |r| ==> drop(s[i])
  {
    if s != [] && drop(s[0]) then
      var r := TrimLeftBy(s[1..], drop);
      assert forall i :: 1 <= i < |s| ==> s[i] == s[1..][i - 1];
      r
    else s
  }

  /** Go's `strings.TrimRightFunc`: drops the longest suffix whose characters
      all satisfy `drop`. */
  function TrimRightBy(s: string, drop: char -> bool): (r: string)
    ensures |r| <= |s| && r == s[..|r|]
    ensures r != [] ==> !drop(r[|r| - 1])
    ensures forall i :: |r| <= i < |s| ==> drop(s[i])
  {
    if s != [] && drop(s[|s| - 1]) then
      var r := TrimRightBy(s[..|s| - 1], drop);
      assert forall i :: 0 <= i < |s| - 1 ==> s[i] == s[..|s| - 1][i];
      r
    else s
  }

  /** The characters Go's `unicode.IsSpace` accepts: the ASCII blanks, NEL,
      NBSP, and the Unicode space separators U+1680, U+2000-U+200A, U+2028,
      U+2029, U+202F, U+205F and U+3000. */
  const Spaces: set<char> := {
    ' ', '\t', '\n', '\r', '\U{000B}', '\U{000C}', '\U{0085}', '\U{00A0}', '\U{1680}',
    '\U{2000}', '\U{2001}', '\U{2002}', '\U{2003}', '\U{2004}', '\U{2005}',
    '\U{2006}', '\U{2007}', '\U{2008}', '\U{2009}', '\U{200A}',
    '\U{2028}', '\U{2029}', '\U{202F}', '\U{205F}', '\U{3000}'}

  /** Go's `unicode.IsSpace`, the test `strings.TrimSpace` uses. */
  predicate IsSpace(c: char)
  {
    c in Spaces
  }

  /** `r` is `s` without its first `a` characters and without the
      characters after `a + |r|`, every removed character satisfying `drop`,
      and `r` neither starts nor ends with such a character: what stripping
      `drop` characters from both ends leaves. */
  ghost predicate StrippedAt(s: string, r: string, a: int, drop: char -> bool)
  {
    && 0 <= a <= |s| - |r|
    && r == s[a..a + |r|]
    && (forall i :: 0 <= i < a ==> drop(s[i]))
    && (forall i :: a + |r| <= i < |s| ==> drop(s[i]))
    && (r != [] ==> !drop(r[0]) && !drop(r[|r| - 1]))
  }

  /** Trimming left then right strips both ends. */
  lemma StripsBoth(s: string, left: string, r: string, drop: char -> bool)
    requires |left| <= |s| && left == s[|s| - |left|..]
    requires forall i :: 0 <= i < |s| - |left| ==> drop(s[i])
    requires left != [] ==> !drop(left[0])
    requires |r| <= |left| && r == left[..|r|]
    requires forall i :: |r| <= i < |left| ==> drop(left[i])
    requires r != [] ==> !drop(r[|r| - 1])
    ensures StrippedAt(s, r, |s| - |left|, drop)
  {
    var a := |s| - |left|;
    assert s[a..][..|r|] == s[a..a + |r|];
    forall i | a + |r| <= i < |s| ensures drop(s[i]) {
      assert s[i] == left[i - a];
    }
    if r != [] {
      assert r[0] == left[0];
    }
  }

  /** Stripping has one outcome: two infixes that both strip the same
      characters from `s` are the same text. */
  lemma StrippedUnique(s: string, r1: string, a1: int, r2: string, a2: int, drop: char -> bool)
    requires StrippedAt(s, r1, a1, drop) && StrippedAt(s, r2, a2, drop)
    ensures r1 == r2
  {
    if r1 != [] {
      assert r1[0] == s[a1] && r1[|r1| - 1] == s[a1 + |r1| - 1];
    }
    if r2 != [] {
      assert r2[0] == s[a2] && r2[|r2| - 1] == s[a2 + |r2| - 1];
    }
  }

  /** Neither end of `s` is white space. */
  predicate NoSpaceEnds(s: string)
  {
    s != [] ==> !IsSpace(s[0]) && !IsSpace(s[|s| - 1])
  }

  /** Go's `strings.TrimSpace`. */
  function TrimSpace(s: string): (r: string)
    ensures NoSpaceEnds(r)
    ensures |r| <= |s|
  {
    TrimRightBy(TrimLeftBy(s, IsSpace), IsSpace)
  }

  /** `TrimSpace` removes exactly the white space at both ends. */
  lemma TrimSpaceStrips(s: string)
    ensures exists a :: StrippedAt(s, TrimSpace(s), a, IsSpace)
  {
    var left := TrimLeftBy(s, IsSpace);
    StripsBoth(s, left, TrimRightBy(left, IsSpace), IsSpace);
    assert StrippedAt(s, TrimSpace(s), |s| - |left|, IsSpace);
  }

  lemma TrimSpaceNoop(s: string)
    requires NoSpaceEnds(s)
    ensures TrimSpace(s) == s
  {
  }

  /** Membership in `cut`, the test `strings.Trim(s, cutset)` applies. */
  function InSet(cut: set<char>): char -> bool
  {
    c => c in cut
  }

  /** Go's `strings.Trim(s, cutset)`: drops leading and trailing characters in `cut`. */
  function Trim(s: string, cut: set<char>): (r: string)
    ensures r != [] ==> r[0] !in cut && r[|r| - 1] !in cut
    ensures |r| <= |s|
  {
    TrimRightBy(TrimLeftBy(s, InSet(cut)), InSet(cut))
  }

  /** `Trim` removes exactly the characters of `cut` at both ends. */
  lemma TrimStrips(s: string, cut: set<char>)
    ensures exists a :: StrippedAt(s, Trim(s, cut), a, InSet(cut))
  {
    var left := TrimLeftBy(s, InSet(cut));
    StripsBoth(s, left, TrimRightBy(left, InSet(cut)), InSet(cut));
    assert StrippedAt(s, Trim(s, cut), |s| - |left|, InSet(cut));
  }

  lemma TrimNoop(s: string, cut: set<char>)
    requires s != [] ==> s[0] !in cut && s[|s| - 1] !in cut
    ensures Trim(s, cut) == s
  {
  }

  /** Go's `strings.TrimRight(s, "0")`, trailing zeros only. */
  function TrimTrailingZeros(s: string): (r: string)
    ensures |r| <= |s| && r == s[..|r|]
    ensures r != [] ==> r[|r| - 1] != '0'
    ensures s == r + Repeat('0', |s| - |r|)
  {
    var r := TrimRightBy(s, c => c == '0');
    assert s == r + s[|r|..];
    assert s[|r|..] == Repeat('0', |s| - |r|);
    r
  }

  predicate HasPrefix(s: string, p: string)
  {
    |p| <= |s| && s[..|p|] == p
  }

  /** A line both the env loader and the test driver skip: empty, or a
      comment starting with `#` or `//`. */
  predicate IsBlankOrComment(line: string)
  {
    line == "" || HasPrefix(line, "#") || HasPrefix(line, "//")
  }

  /** Go's `strings.Index(s, string(c))`: -1 when c is absent. */
  function IndexOf(s: string, c: char): (r: int)
    ensures -1 <= r < |s|
    ensures r == -1 <==> c !in s
    ensures r >= 0 ==> s[r] == c && c !in s[..r]
  {
    if s == [] then -1
    else if s[0] == c then 0
    else
      var rest := IndexOf(s[1..], c);
      assert s == [s[0]] + s[1..];
      if rest == -1 then -1 else rest + 1
  }

  /** Go's `strings.Split(s, string(c))`: the pieces between occurrences of
      c; there is always at least one. */
  function SplitOn(s: string, c: char): (pieces: seq<string>)
    ensures |pieces| >= 1
    decreases |s|
  {
    var i := IndexOf(s, c);
    if i < 0 then [s] else [s[..i]] + SplitOn(s[i + 1..], c)
  }

  /** Go's `strings.Join(pieces, string(c))`. */
  function Join(pieces: seq<string>, c: char): string
    requires |pieces| >= 1
  {
    if |pieces| == 1 then pieces[0] else pieces[0] + [c] + Join(pieces[1..], c)
  }

  /** Splitting loses nothing: joining the pieces with the separator gives
      the text back ... */
  lemma {:induction false} SplitOnJoin(s: string, c: char)
    ensures Join(SplitOn(s, c), c) == s
    decreases |s|
  {
    var i := IndexOf(s, c);
    if i >= 0 {
      SplitOnCons(s, c);
      var rest := SplitOn(s[i + 1..], c);
      SplitOnJoin(s[i + 1..], c);
      JoinCons(s[..i], rest, c);
      SplitAround(s, i);
    }
  }

  lemma JoinCons(p: string, rest: seq<string>, c: char)
    requires |rest| >= 1
    ensures Join([p] + rest, c) == p + [c] + Join(rest, c)
  {
    assert ([p] + rest)[1..] == rest;
  }

  lemma SplitOnCons(s: string, c: char)
    requires IndexOf(s, c) >= 0
    ensures SplitOn(s, c) == [s[..IndexOf(s, c)]] + SplitOn(s[IndexOf(s, c) + 1..], c)
  {
  }

  lemma SplitAround(s: string, i: nat)
    requires i < |s|
    ensures s == s[..i] + [s[i]] + s[i + 1..]
  {
  }

  /** ... and no piece holds the separator. */
  lemma {:induction false} SplitOnPieces(s: string, c: char)
    ensures forall k :: 0 <= k < |SplitOn(s, c)| ==> c !in SplitOn(s, c)[k]
    decreases |s|
  {
    var i := IndexOf(s, c);
    if i >= 0 {
      var rest := SplitOn(s[i + 1..], c);
      SplitOnPieces(s[i + 1..], c);
      var pieces := [s[..i]] + rest;
      assert SplitOn(s, c) == pieces;
      forall k | 0 <= k < |pieces| ensures c !in pieces[k] {
        if k > 0 {
          assert pieces[k] == rest[k - 1];
        }
      }
    }
  }

  /** Go's `strings.Contains`. */
  predicate Contains(s: string, sub: string)
  {
    if HasPrefix(s, sub) then true else if s == [] then false else Contains(s[1..], sub)
  }

  /** Go's `strings.LastIndex(s, string(c))`: -1 when c is absent. */
  function LastIndexOf(s: string, c: char): (r: int)
    ensures -1 <= r < |s|
    ensures r == -1 <==> c !in s
    ensures r >= 0 ==> s[r] == c && c !in s[r + 1..]
  {
    if s == [] then -1
    else if s[|s| - 1] == c then |s| - 1
    else
      var r := LastIndexOf(s[..|s| - 1], c);
      assert s == s[..|s| - 1] + [s[|s| - 1]];
      r
  }

  // ---------------------------------------------------------------- hexadecimal

  predicate IsHexDigit(c: char)
  {
    ('0' <= c <= '9') || ('a' <= c <= 'f') || ('A' <= c <= 'F')
  }

  predicate IsLowerHex(s: string)
  {
    forall i :: 0 <= i < |s| ==> ('0' <= s[i] <= '9') || ('a' <= s[i] <= 'f')
  }

  predicate AllHex(s: string) { forall i :: 0 <= i < |s| ==> IsHexDigit(s[i]) }

  /** The lowercase hex digit for d, as Go's `%x` and `hex.EncodeToString` print it. */
  function HexDigitChar(d: nat): (c: char)
    requires d < 16
    ensures ('0' <= c <= '9') || ('a' <= c <= 'f')
  {
    if d < 10 then ('0' as int + d) as char else ('a' as int + d - 10) as char
  }

  function HexDigitValue(c: char): (d: nat)
    requires IsHexDigit(c)
    ensures d < 16
  {
    if '0' <= c <= '9' then c as int - '0' as int
    else if 'a' <= c <= 'f' then c as int - 'a' as int + 10
    else c as int - 'A' as int + 10
  }

  lemma HexDigitRoundTrip(d: nat)
    requires d < 16
    ensures HexDigitValue(HexDigitChar(d)) == d
  {
  }

  /** Go's `fmt.Sprintf("%0wx", n)` for n < 16^w: exactly w lowercase hex digits. */
  function HexFixed(n: nat, w: nat): (s: string)
    ensures |s| == w && IsLowerHex(s)
  {
    if w == 0 then [] else HexFixed(n / 16, w - 1) + [HexDigitChar(n % 16)]
  }

  /** The number a string of hex digits denotes (either case). */
  function HexValue(s: string): nat
    requires AllHex(s)
  {
    if s == [] then 0 else HexValue(s[..|s| - 1]) * 16 + HexDigitValue(s[|s| - 1])
  }

  lemma {:induction false} HexFixedRoundTrip(n: nat, w: nat)
    requires n < Pow(16, w)
    ensures HexValue(HexFixed(n, w)) == n
  {
    if w > 0 {
      var s := HexFixed(n, w);
      assert s[..|s| - 1] == HexFixed(n / 16, w - 1);
      HexFixedRoundTrip(n / 16, w - 1);
    }
  }

  /** Go's `%x` on a byte array, `hex.EncodeToString` and Python's `hexlify`:
      two lowercase hex digits per byte. */
  function HexBytes(bs: seq<byte>): (s: string)
    ensures |s| == 2 * |bs| && IsLowerHex(s)
  {
    if bs == [] then [] else HexFixed(bs[0], 2) + HexBytes(bs[1..])
  }

  /** Go's `hex.DecodeString` and Python's `binascii.unhexlify`: None on an odd
      length or a character that is not a hex digit. */
  function HexDecode(s: string): (r: Option<seq<byte>>)
    ensures r.Some? ==> 2 * |r.value| == |s|
  {
    if s == [] then Some([])
    else if |s| < 2 || !IsHexDigit(s[0]) || !IsHexDigit(s[1]) then None
    else
      match HexDecode(s[2..])
      case None => None
      case Some(rest) => Some([HexDigitValue(s[0]) * 16 + HexDigitValue(s[1])] + rest)
  }

  /** Hex-encoding then decoding returns the bytes: the seed a key generator
      prints is the seed a decryptor reads back. */
  lemma {:induction false} HexBytesRoundTrip(bs: seq<byte>)
    ensures HexDecode(HexBytes(bs)) == Some(bs)
  {
    if bs != [] {
      var b := bs[0];
      var h, s := HexFixed(b, 2), HexBytes(bs);
      HexByteDecodes(b);
      assert s == h + HexBytes(bs[1..]);
      assert s[0] == h[0] && s[1] == h[1];
      assert s[2..] == HexBytes(bs[1..]);
      HexBytesRoundTrip(bs[1..]);
      assert [b] + bs[1..] == bs;
    }
  }

  lemma HexByteDecodes(b: byte)
    ensures IsHexDigit(HexFixed(b, 2)[0]) && IsHexDigit(HexFixed(b, 2)[1])
    ensures HexDigitValue(HexFixed(b, 2)[0]) * 16 + HexDigitValue(HexFixed(b, 2)[1]) == b
  {
    assert HexFixed(b, 2) == [HexDigitChar(b / 16 % 16), HexDigitChar(b % 16)];
    HexDigitRoundTrip(b / 16 % 16);
    HexDigitRoundTrip(b % 16);
  }

  lemma HexBytesInjective(a: seq<byte>, b: seq<byte>)
    requires HexBytes(a) == HexBytes(b)
    ensures a == b
  {
    HexBytesRoundTrip(a);
    HexBytesRoundTrip(b);
  }

  lemma LowerHexHasNoSpace(s: string)
    requires IsLowerHex(s)
    ensures TrimSpace(s) == s
  {
    if s != [] {
      assert !IsSpace(s[0]) && !IsSpace(s[|s| - 1]);
      TrimSpaceNoop(s);
    }
  }
}
