/** The usual optional value, for null pointers and absent fields, and two sequence updates. */
module Wrappers {
  datatype Option<+T> = None | Some(value: T)

  function InsertAt<T>(s: seq<T>, at: nat, x: T): (r: seq<T>)
    requires at <= |s|
    ensures |r| == |s| + 1
    ensures forall i {:trigger r[i]} :: 0 <= i < |r| ==> r[i] == if i < at then s[i] else if i == at then x else s[i - 1]
  {
    s[..at] + [x] + s[at..]
  }

  function RemoveAt<T>(s: seq<T>, at: nat): (r: seq<T>)
    requires at < |s|
    ensures |r| == |s| - 1
    ensures forall i {:trigger r[i]} :: 0 <= i < |r| ==> r[i] == if i < at then s[i] else s[i + 1]
  {
    s[..at] + s[at + 1..]
  }
}

/** Machine bytes and words.  Every C buffer in the model is a sequence or an array of
    `byte`; multi-byte fields are laid out as a little-endian host stores them, and the
    network-order fields of RFC 791 and RFC 793 are laid out big-endian. */
module Bytes {

  type byte = x: int | 0 <= x < 0x100
  type u16 = x: int | 0 <= x < 0x1_0000
  type u32 = x: int | 0 <= x < 0x1_0000_0000

  /** The numbers of the transport protocols. */
  const IPPROTO_ICMP: byte := 1
  const IPPROTO_TCP: byte := 6
  const IPPROTO_UDP: byte := 17

  /** The size of struct nlmsghdr. */
  const NLMSG_HDRLEN: nat := 16

  /** MNL_ALIGN, NLMSG_ALIGN and NFA_ALIGN: round up to a multiple of four. */
  function Align(n: nat): (a: nat)
    ensures n <= a < n + 4 && a % 4 == 0
    ensures n % 4 == 0 ==> a == n
  {
    if n % 4 == 0 then n else n - n % 4 + 4
  }

  lemma AlignSum(a: nat, b: nat)
    requires a % 4 == 0
    ensures Align(a + b) == a + Align(b)
  {
    var k := a / 4;
    assert a == 4 * k && (a + b) % 4 == b % 4;
  }

  lemma AlignMono(tail: nat, len: nat, maxlen: nat)
    requires tail % 4 == 0 && tail + len <= maxlen
    ensures tail + Align(len) <= Align(maxlen)
  {
    AlignSum(tail, len);
    AlignLeast(tail + len, Align(maxlen));
  }

  /** Rounding up finds the least multiple of four. */
  lemma AlignLeast(n: nat, m: nat)
    requires n <= m && m % 4 == 0
    ensures Align(n) <= m
  {
    var k, j := m / 4, Align(n) / 4;
    assert m == 4 * k && Align(n) == 4 * j;
  }

  function Pow2(n: nat): (p: nat)
    ensures p > 0
  {
    if n == 0 then 1 else 2 * Pow2(n - 1)
  }

  /** The bitwise disjunction of two words of `n` bits. */
  function OrBits(a: nat, b: nat, n: nat): (r: nat)
    requires a < Pow2(n) && b < Pow2(n)
    ensures r < Pow2(n) && (b == 0 ==> r == a)
  {
    if n == 0 then 0 else (if a % 2 == 1 || b % 2 == 1 then 1 else 0) + 2 * OrBits(a / 2, b / 2, n - 1)
  }

  function OrBytes(a: byte, b: byte): (r: byte)
    ensures b == 0 ==> r == a
  {
    assert Pow2(8) == 0x100;
    OrBits(a, b, 8)
  }

  function Min(a: nat, b: nat): nat { if a <= b then a else b }

  /** Host-order loads. */
  function Le16(s: seq<byte>, i: nat): u16
    requires i + 2 <= |s|
  {
    s[i] as int + 0x100 * s[i + 1] as int
  }

  function Le32(s: seq<byte>, i: nat): u32
    requires i + 4 <= |s|
  {
    s[i] as int + 0x100 * s[i + 1] as int + 0x1_0000 * s[i + 2] as int + 0x100_0000 * s[i + 3] as int
  }

  /** Network-order loads. */
  function Be16(s: seq<byte>, i: nat): u16
    requires i + 2 <= |s|
  {
    0x100 * s[i] as int + s[i + 1] as int
  }

  function Be32(s: seq<byte>, i: nat): u32
    requires i + 4 <= |s|
  {
    0x100_0000 * s[i] as int + 0x1_0000 * s[i + 1] as int + 0x100 * s[i + 2] as int + s[i + 3] as int
  }

  /** Host-order stores: the bytes that the matching load reads back. */
  function Bytes16(v: u16): (b: seq<byte>)
    ensures |b| == 2 && Le16(b, 0) == v
  {
    [v % 0x100, v / 0x100]
  }

  function Bytes32(v: u32): (b: seq<byte>)
    ensures |b| == 4 && Le32(b, 0) == v
  {
    var q1 := v / 0x100;
    var q2 := q1 / 0x100;
    var q3 := q2 / 0x100;
    assert v as int == v as int % 0x100 + 0x100 * q1 as int;
    assert q1 as int == q1 as int % 0x100 + 0x100 * q2 as int;
    assert q2 as int == q2 as int % 0x100 + 0x100 * q3 as int;
    [v % 0x100, q1 % 0x100, q2 % 0x100, q3]
  }

  /** Network-order stores (htons and htonl followed by a host-order store). */
  function Net16(v: u16): (b: seq<byte>)
    ensures |b| == 2 && Be16(b, 0) == v
  {
    [v / 0x100, v % 0x100]
  }

  function Net32(v: u32): (b: seq<byte>)
    ensures |b| == 4 && Be32(b, 0) == v
  {
    var b := Bytes32(v);
    [b[3], b[2], b[1], b[0]]
  }

  /** Four bytes are the store of the word that they load as. */
  lemma WordBytes(s: seq<byte>)
    requires |s| >= 4
    ensures s[..4] == Bytes32(Le32(s, 0))
  {
    var v := Le32(s, 0);
    var high := s[2] as int + 0x100 * s[3] as int;
    var mid := s[1] as int + 0x100 * high;
    assert v as int == s[0] as int + 0x100 * mid;
    assert v as int / 0x100 == mid && v as int / 0x1_0000 == high && v as int / 0x100_0000 == s[3] as int;
  }

  /** A field is where it was laid out. */
  lemma FieldAt32(before: seq<byte>, v: u32, after: seq<byte>)
    ensures Le32(before + Bytes32(v) + after, |before|) == v
  {
    var s, b := before + Bytes32(v) + after, Bytes32(v);
    assert s[|before|] == b[0] && s[|before| + 1] == b[1] && s[|before| + 2] == b[2] && s[|before| + 3] == b[3];
    assert Le32(s, |before|) == Le32(b, 0);
  }

  lemma FieldAt16(before: seq<byte>, v: u16, after: seq<byte>)
    ensures Le16(before + Bytes16(v) + after, |before|) == v
  {
    var s, b := before + Bytes16(v) + after, Bytes16(v);
    assert s[|before|] == b[0] && s[|before| + 1] == b[1];
    assert Le16(s, |before|) == Le16(b, 0);
  }

  lemma NetFieldAt16(before: seq<byte>, v: u16, after: seq<byte>)
    ensures Be16(before + Net16(v) + after, |before|) == v
  {
    var s, b := before + Net16(v) + after, Net16(v);
    assert s[|before|] == b[0] && s[|before| + 1] == b[1];
    assert Be16(s, |before|) == Be16(b, 0);
  }

  lemma NetFieldAt32(before: seq<byte>, v: u32, after: seq<byte>)
    ensures Be32(before + Net32(v) + after, |before|) == v
  {
    var s, b := before + Net32(v) + after, Net32(v);
    assert s[|before|] == b[0] && s[|before| + 1] == b[1] && s[|before| + 2] == b[2] && s[|before| + 3] == b[3];
    assert Be32(s, |before|) == Be32(b, 0);
  }

  /** Fields of a prefix are fields of the whole. */
  lemma PrefixFields(p: seq<byte>, rest: seq<byte>, i: nat)
    ensures i + 2 <= |p| ==> Le16(p + rest, i) == Le16(p, i) && Be16(p + rest, i) == Be16(p, i)
    ensures i + 4 <= |p| ==> Le32(p + rest, i) == Le32(p, i) && Be32(p + rest, i) == Be32(p, i)
  {
  }

  /** `s` with the bytes from index `i` on replaced by `t`. */
  function Overwrite(s: seq<byte>, i: nat, t: seq<byte>): (r: seq<byte>)
    requires i + |t| <= |s|
    ensures |r| == |s|
    ensures forall k {:trigger r[k]} :: 0 <= k < |s| ==> r[k] == if i <= k < i + |t| then t[k - i] else s[k]
  {
    s[..i] + t + s[i + |t|..]
  }

  /** What was stored is what is there, and what is elsewhere was there before. */
  lemma OverwriteSlices(s: seq<byte>, i: nat, t: seq<byte>)
    requires i + |t| <= |s|
    ensures Overwrite(s, i, t)[i..i + |t|] == t
    ensures Overwrite(s, i, t)[..i] == s[..i]
    ensures Overwrite(s, i, t)[i + |t|..] == s[i + |t|..]
  {
  }

  lemma SliceDrop(s: seq<byte>, a: nat, b: nat, k: nat)
    requires a + k <= b <= |s|
    ensures s[a..b][k..] == s[a + k..b]
  {
  }

  /** Buffers that agree from `k` on agree on every later slice. */
  lemma SameSlice(r: seq<byte>, s: seq<byte>, k: nat, a: nat, b: nat)
    requires |r| == |s| && k <= a <= b <= |s| && r[k..] == s[k..]
    ensures r[a..b] == s[a..b]
  {
    forall i | a <= i < b
      ensures r[i] == s[i]
    {
      assert r[i] == r[k..][i - k] == s[k..][i - k] == s[i];
    }
  }
}

/** The C library's block stores, each a loop over the bytes it writes. */
module Memory {
  import opened Bytes

  /** memcpy from a separate buffer. */
  method CopyIn(buf: array<byte>, dst: nat, data: seq<byte>)
    requires dst + |data| <= buf.Length
    modifies buf
    ensures buf[..] == Overwrite(old(buf[..]), dst, data)
  {
    var i := 0;
    while i < |data|
      invariant 0 <= i <= |data|
      invariant buf[..] == Overwrite(old(buf[..]), dst, data[..i])
    {
      buf[dst + i] := data[i];
      assert data[..i + 1] == data[..i] + [data[i]];
      i := i + 1;
    }
    assert data[..i] == data;
  }

  /** memset to zero. */
  method Clear(buf: array<byte>, dst: nat, n: nat)
    requires dst + n <= buf.Length
    modifies buf
    ensures buf[..] == Overwrite(old(buf[..]), dst, Zeros(n))
  {
    CopyIn(buf, dst, Zeros(n));
  }

  function Zeros(n: nat): (z: seq<byte>)
    ensures |z| == n && forall k :: 0 <= k < n ==> z[k] == 0
  {
    seq(n, _ => 0)
  }

  /** memmove: the two ranges may overlap. */
  method Move(buf: array<byte>, dst: nat, src: nat, n: nat)
    requires dst + n <= buf.Length && src + n <= buf.Length
    modifies buf
    ensures buf[..] == Overwrite(old(buf[..]), dst, old(buf[src..src + n]))
  {
    ghost var was := buf[..];
    if dst <= src {
      var i := 0;
      while i < n
        invariant 0 <= i <= n
        invariant forall k :: dst <= k < dst + i ==> buf[k] == was[src - dst + k]
        invariant forall k :: 0 <= k < dst || dst + i <= k < buf.Length ==> buf[k] == was[k]
      {
        buf[dst + i] := buf[src + i];
        i := i + 1;
      }
    } else {
      var i := n;
      while i > 0
        invariant 0 <= i <= n
        invariant forall k :: dst + i <= k < dst + n ==> buf[k] == was[src - dst + k]
        invariant forall k :: 0 <= k < dst + i || dst + n <= k < buf.Length ==> buf[k] == was[k]
      {
        i := i - 1;
        buf[dst + i] := buf[src + i];
      }
    }
    Moved(was, buf[..], dst, src, n);
  }

  lemma Moved(was: seq<byte>, now: seq<byte>, dst: nat, src: nat, n: nat)
    requires |now| == |was| && dst + n <= |was| && src + n <= |was|
    requires forall k :: dst <= k < dst + n ==> now[k] == was[src - dst + k]
    requires forall k :: 0 <= k < dst || dst + n <= k < |was| ==> now[k] == was[k]
    ensures now == Overwrite(was, dst, was[src..src + n])
  {
  }
}
