/** The Internet checksum (section 1 of RFC 1071): the loop of libnetfilter_queue against
    one's-complement addition, and what storing the result does. */
module InternetChecksum {
  import opened Bytes

  const ONES: nat := 0xffff

  // ---------------------------------------------------------------- one's-complement sums

  /** Addition with end-around carry. */
  function OnesAdd(a: u16, b: u16): u16 {
    var s := a as int + b as int;
    if s > ONES then s - ONES else s
  }

  /** The 16-bit words of a buffer in host order; an odd last byte is a word of its own. */
  function Words(s: seq<byte>): seq<u16> {
    if s == [] then [] else if |s| == 1 then [s[0] as int] else [Le16(s, 0)] + Words(s[2..])
  }

  function OnesSum(ws: seq<u16>): u16 {
    if ws == [] then 0 else OnesAdd(ws[0], OnesSum(ws[1..]))
  }

  /** The plain integer sum of the words. */
  function Sum(s: seq<byte>): nat {
    if s == [] then 0 else if |s| == 1 then s[0] as int else Le16(s, 0) as int + Sum(s[2..])
  }

  /** The representative of a sum in one's-complement arithmetic: congruent modulo 65535, and
      zero only for zero. */
  function Norm(n: nat): u16 { if n == 0 then 0 else 1 + (n - 1) % ONES }

  /** Two folds of the high half into the low half. */
  function TwoFolds(sum: u32): (v: nat)
    ensures v < 2 * 0x1_0000
  {
    var once: nat := sum / 0x1_0000 + sum % 0x1_0000;
    once + once / 0x1_0000
  }

  /** Two folds are enough: what is left in the low half is the one's-complement sum. */
  lemma TwoFoldsNorm(sum: u32)
    ensures TwoFolds(sum) % 0x1_0000 == Norm(sum) as int
  {
    var h, l := sum as int / 0x1_0000, sum as int % 0x1_0000;
    FoldOnce(h + l);
    if sum != 0 {
      ModAdd(h + l - 1, h);
      assert sum as int - 1 == h + l - 1 + h * ONES;
    }
  }

  lemma FoldOnce(once: nat)
    requires once <= 2 * ONES
    ensures (once + once / 0x1_0000) % 0x1_0000 == Norm(once) as int
  {
    if once <= ONES {
      assert once / 0x1_0000 == 0;
    } else {
      assert once / 0x1_0000 == 1 && once == (once - ONES) + ONES;
    }
  }

  lemma {:induction false} ModAdd(n: int, k: nat)
    requires n >= 0
    ensures (n + k * ONES) % ONES == n % ONES
    decreases k
  {
    if k > 0 {
      ModAdd(n, k - 1);
      assert n + k * ONES == n + (k - 1) * ONES + ONES;
    }
  }

  lemma NormAdd(a: u16, n: nat)
    ensures OnesAdd(a, Norm(n)) == Norm(a as int + n)
  {
  }

  /** The end-around sum of the words is the representative of their integer sum. */
  lemma {:induction false} OnesSumNorm(s: seq<byte>)
    ensures OnesSum(Words(s)) == Norm(Sum(s))
    decreases |s|
  {
    if |s| >= 2 {
      OnesSumNorm(s[2..]);
      NormAdd(Le16(s, 0), Sum(s[2..]));
      var ws := Words(s[2..]);
      assert ([Le16(s, 0)] + ws)[1..] == ws;
    } else if |s| == 1 {
      assert OnesSum([s[0] as int]) == OnesAdd(s[0] as int, OnesSum([]));
    }
  }

  lemma {:induction false} SumBound(s: seq<byte>)
    ensures Sum(s) <= (|s| + 1) / 2 * ONES
    decreases |s|
  {
    if |s| >= 2 {
      SumBound(s[2..]);
    }
  }

  lemma {:induction false} SumConcat(a: seq<byte>, b: seq<byte>)
    requires |a| % 2 == 0
    ensures Sum(a + b) == Sum(a) + Sum(b)
    decreases |a|
  {
    if a == [] {
      assert a + b == b;
    } else {
      assert (a + b)[2..] == a[2..] + b;
      SumConcat(a[2..], b);
    }
  }

  // ---------------------------------------------------------------- nfq_checksum

  /** The checksum of a buffer added to a starting sum. */
  function Checksum(start: nat, s: seq<byte>): u16 { ONES - Norm(start + Sum(s)) }

  /** The 32-bit sum does not wrap for a buffer of up to 65535 bytes and a starting sum of up
      to eight words, which covers every call in the library. */
  lemma NoWrap(start: nat, s: seq<byte>)
    requires |s| <= 65535 && start <= 8 * ONES
    ensures start + Sum(s) < 0x1_0000_0000
  {
    SumBound(s);
  }

  lemma SumHead(s: seq<byte>, i: nat)
    requires i + 2 <= |s|
    ensures Sum(s[i..]) == Le16(s, i) as int + Sum(s[i + 2..])
  {
    assert Le16(s[i..], 0) == Le16(s, i) && s[i..][2..] == s[i + 2..];
  }

  /** A sum kept in 32 bits and what is still to come make the total, as far as 32 bits go. */
  predicate Wrapped(sum: nat, rest: nat, total: nat) { Mod32(sum + rest) == Mod32(total) }

  /** What a uint32_t keeps of a sum. */
  function Mod32(x: nat): u32 { x % 0x1_0000_0000 }

  lemma WrapAdd(a: nat, b: nat, rest: nat, total: nat)
    requires Wrapped(a, b + rest, total)
    ensures Wrapped(Mod32(a + b), rest, total)
  {
  }

  lemma WrapStart(start: u32, s: seq<byte>)
    ensures Wrapped(start, Sum(s[0..]), start as int + Sum(s))
  {
    assert s[0..] == s;
  }

  lemma NoLoss(x: nat)
    ensures x < 0x1_0000_0000 ==> Mod32(x) as int == x
  {
  }

  lemma WrapEnd(sum: u32, total: nat)
    requires Wrapped(sum, 0, total)
    ensures sum == Mod32(total)
  {
  }

  lemma SumTail(s: seq<byte>, i: nat)
    requires |s| - 1 <= i <= |s|
    ensures Sum(s[i..]) == if i == |s| then 0 else s[i] as int
  {
    if i < |s| {
      assert s[i..] == [s[i]];
    }
  }

  /** nfq_checksum.  The sum is kept in 32 bits; as long as it fits, the result is the checksum. */
  method NfqChecksum(start: u32, s: seq<byte>) returns (check: u16)
    ensures check as int == ONES - TwoFolds(Mod32(start as int + Sum(s))) % 0x1_0000
    ensures start as int + Sum(s) < 0x1_0000_0000 ==> check == Checksum(start, s)
  {
    hide Sum, Norm, Le16, Wrapped, Mod32;
    WrapStart(start, s);
    var sum: u32, i, size := start, 0, |s|;
    ghost var total := start as int + Sum(s);
    while size > 1
      invariant 0 <= i && size == |s| - i >= 0
      invariant Wrapped(sum, Sum(s[i..]), total)
    {
      SumHead(s, i);
      WrapAdd(sum, Le16(s, i), Sum(s[i + 2..]), total);
      sum := Mod32(sum as int + Le16(s, i) as int);
      i := i + 2;
      size := size - 2;
    }
    SumTail(s, i);
    if size != 0 {
      WrapAdd(sum, s[i], 0, total);
      sum := Mod32(sum as int + s[i] as int);
    }
    WrapEnd(sum, total);
    NoLoss(total);
    TwoFoldsNorm(sum);
    sum := sum / 0x1_0000 + sum % 0x1_0000;
    sum := sum + sum / 0x1_0000;
    check := ONES - sum % 0x1_0000;
  }

  /** The computed checksum is the complement of the one's-complement sum of the words, as
      section 1 of RFC 1071 defines it. */
  lemma ChecksumIsComplement(s: seq<byte>)
    ensures Checksum(0, s) as int == ONES - OnesSum(Words(s)) as int
  {
    OnesSumNorm(s);
  }

  /** Storing the checksum in its zeroed field makes the checksum of the whole zero. */
  lemma StoredChecksumVerifies(start: nat, s: seq<byte>, at: nat)
    requires at % 2 == 0 && at + 2 <= |s| && s[at] == 0 && s[at + 1] == 0
    ensures Checksum(start, Overwrite(s, at, Bytes16(Checksum(start, s)))) == 0
  {
    var c := Checksum(start, s);
    SumStore(s, at, c);
    var n := start + Sum(s);
    assert c as int == ONES - Norm(n) as int;
    if n != 0 {
      var k := (n - 1) / ONES;
      assert n - 1 == k * ONES + (n - 1) % ONES;
      assert n + c as int - 1 == k * ONES + (ONES - 1);
      ModAdd(ONES - 1, k);
    }
  }

  lemma SumStore(s: seq<byte>, at: nat, v: u16)
    requires at % 2 == 0 && at + 2 <= |s| && s[at] == 0 && s[at + 1] == 0
    ensures Sum(Overwrite(s, at, Bytes16(v))) == Sum(s) + v as int
  {
    var r := Overwrite(s, at, Bytes16(v));
    OverwriteSlices(s, at, Bytes16(v));
    SumSplit(s, at);
    SumSplit(r, at);
    assert s[at..][2..] == s[at + 2..] && r[at..][2..] == r[at + 2..];
    assert Le16(r[at..], 0) == v by {
      assert r[at] == Bytes16(v)[0] && r[at + 1] == Bytes16(v)[1];
    }
  }

  lemma SumSplit(s: seq<byte>, at: nat)
    requires at % 2 == 0 && at <= |s|
    ensures Sum(s) == Sum(s[..at]) + Sum(s[at..])
  {
    assert s == s[..at] + s[at..];
    SumConcat(s[..at], s[at..]);
  }

  /** An odd last byte counts as if a zero byte followed it, as section 4.1 of RFC 1071 has it. */
  lemma {:induction false} OddBytePads(start: nat, s: seq<byte>)
    requires |s| % 2 == 1
    ensures Checksum(start, s + [0]) == Checksum(start, s)
  {
    PaddedSum(s);
  }

  lemma {:induction false} PaddedSum(s: seq<byte>)
    requires |s| % 2 == 1
    ensures Sum(s + [0]) == Sum(s)
    decreases |s|
  {
    var p := s + [0];
    if |s| == 1 {
      assert p[2..] == [];
    } else {
      assert p[2..] == s[2..] + [0] && p[0] == s[0] && p[1] == s[1];
      PaddedSum(s[2..]);
    }
  }

  // ---------------------------------------------------------------- byte order

  /** The buffer with the two bytes of every word exchanged. */
  function Swapped(s: seq<byte>): (r: seq<byte>)
    requires |s| % 2 == 0
    ensures |r| == |s|
  {
    if s == [] then [] else [s[1], s[0]] + Swapped(s[2..])
  }

  function Swap16(v: u16): u16 { v / 0x100 + v % 0x100 * 0x100 }

  /** The sum of the swapped words is congruent to 256 times the sum. */
  lemma {:induction false} SwapSum(s: seq<byte>) returns (k: int)
    requires |s| % 2 == 0
    ensures Sum(Swapped(s)) == 0x100 * Sum(s) - k * ONES
    ensures Sum(Swapped(s)) == 0 <==> Sum(s) == 0
    decreases |s|
  {
    k := 0;
    if s != [] {
      k := SwapSum(s[2..]);
      var r := Swapped(s[2..]);
      assert ([s[1], s[0]] + r)[2..] == r;
      assert Le16([s[1], s[0]] + r, 0) as int == 0x100 * Le16(s, 0) as int - s[1] as int * ONES;
      k := k + s[1] as int;
    }
  }

  /** Section 2 (B) of RFC 1071: swapping the bytes of every word swaps the bytes of the
      checksum, so one loop serves both byte orders. */
  lemma ByteOrderIndependence(s: seq<byte>)
    requires |s| % 2 == 0
    ensures Checksum(0, Swapped(s)) == Swap16(Checksum(0, s))
  {
    hide Norm, Sum, Swapped, Swap16;
    var k := SwapSum(s);
    SwapNorm(Sum(s), Sum(Swapped(s)), k);
    SwapComplement(Norm(Sum(s)));
  }

  lemma SwapNorm(n: nat, n': nat, k: int)
    requires n' == 0x100 * n - k * ONES && (n' == 0 <==> n == 0)
    ensures Norm(n') == Swap16(Norm(n))
  {
    var v, q := Norm(n) as int, (n - Norm(n) as int) / ONES;
    NormCongruent(n);
    var h, l := v / 0x100, v % 0x100;
    assert n' == 0x100 * v + (0x100 * q - k) * ONES;
    assert 0x100 * v == h + 0x100 * l + h * ONES;
    NormUnique(n', h + 0x100 * l, h + 0x100 * q - k);
  }

  lemma SwapComplement(v: u16)
    ensures Swap16(ONES - v as int) as int == ONES - Swap16(v) as int
  {
    var h, l := v as int / 0x100, v as int % 0x100;
    assert ONES - v as int == 0x100 * (0xff - h) + (0xff - l);
  }

  lemma NormCongruent(n: nat)
    ensures n - Norm(n) as int == (n - Norm(n) as int) / ONES * ONES
    ensures Norm(n) == 0 <==> n == 0
  {
  }

  /** A value in range, congruent and zero exactly when the sum is, is the representative. */
  lemma NormUnique(n: nat, w: nat, k: int)
    requires w <= ONES && n == w + k * ONES && (n == 0 <==> w == 0)
    ensures Norm(n) as int == w
  {
    if n != 0 {
      assert k >= 0;
      ModAdd(w - 1, k);
    }
  }
}
