/** Building a netlink message in a buffer of `buflen` bytes: the header helpers of nlmsg.c
    and the bounded attribute helpers of attr.c.  Index 0 of the buffer is the first byte of
    the message header, so `nlmsg_len` is the little-endian word at offset 0. */
module Builder {
  import opened Bytes
  import opened AttrWire
  import Memory

  const WORD: nat := 0x1_0000_0000

  // ------------------------------------------------ each helper as a function of the bytes

  function MsgLen(s: seq<byte>): u32
    requires |s| >= 4
  {
    Le32(s, 0)
  }

  function SetLen(s: seq<byte>, len: nat): (r: seq<byte>)
    requires |s| >= 4
    ensures |r| == |s| && r[4..] == s[4..]
    ensures len < WORD ==> MsgLen(r) as nat == len
  {
    var r := Overwrite(s, 0, Bytes32(len % WORD));
    assert r[..4] == Bytes32(len % WORD);
    r
  }

  /** mnl_nlmsg_get_payload_tail */
  function Tail(s: seq<byte>): nat
    requires |s| >= 4
  {
    Align(MsgLen(s))
  }

  /** The length field of an attribute with `n` payload bytes: a uint16_t, so it wraps. */
  function LenField(n: nat): (v: u16)
    ensures Align(v) <= Align(ATTR_HDRLEN + n) == ATTR_HDRLEN + Align(n)
  {
    var v := (ATTR_HDRLEN + n) % ATTR_LEN_LIMIT;
    AlignSum(ATTR_HDRLEN, n);
    AlignLeast(v, Align(ATTR_HDRLEN + n));
    v
  }

  /** mnl_attr_put */
  function PutAttr(s: seq<byte>, typ: u16, data: seq<byte>): (r: seq<byte>)
    requires |s| >= 4 && Tail(s) + ATTR_HDRLEN + |data| <= |s|
    ensures |r| == |s|
    ensures MsgLen(s) as nat + Align(LenField(|data|)) < WORD ==> MsgLen(r) as nat == MsgLen(s) as nat + Align(LenField(|data|))
  {
    var n := LenField(|data|);
    SetLen(Overwrite(s, Tail(s), Bytes16(n) + Bytes16(typ) + data), MsgLen(s) as nat + Align(n))
  }

  /** mnl_attr_nest_start: the length field of the new header is not written yet. */
  function OpenNest(s: seq<byte>, typ: u16): (r: seq<byte>)
    requires |s| >= 4 && Tail(s) + ATTR_HDRLEN <= |s|
    ensures |r| == |s|
    ensures MsgLen(s) as nat + ATTR_HDRLEN < WORD ==> MsgLen(r) as nat == MsgLen(s) as nat + ATTR_HDRLEN
  {
    SetLen(Overwrite(s, Tail(s) + 2, Bytes16(NestField(typ))), MsgLen(s) as nat + ATTR_HDRLEN)
  }

  /** mnl_attr_nest_end */
  function CloseNest(s: seq<byte>, start: nat): (r: seq<byte>)
    requires |s| >= 4 && start <= Tail(s) && start + 2 <= |s|
    ensures |r| == |s| && (start >= 4 ==> MsgLen(r) == MsgLen(s))
  {
    Overwrite(s, start, Bytes16((Tail(s) - start) % ATTR_LEN_LIMIT))
  }

  /** mnl_attr_nest_cancel; the difference is taken in 32 bits. */
  function CancelNest(s: seq<byte>, start: nat): (r: seq<byte>)
    requires |s| >= 4 && start <= Tail(s)
    ensures |r| == |s|
    ensures Tail(s) == MsgLen(s) as nat ==> MsgLen(r) as nat == start
  {
    SetLen(s, (MsgLen(s) as int - (Tail(s) - start)) % WORD)
  }

  // ------------------------------------------------ the helpers themselves

  method StoreLen(buf: array<byte>, len: nat)
    requires buf.Length >= 4
    modifies buf
    ensures buf[..] == SetLen(old(buf[..]), len)
  {
    Memory.CopyIn(buf, 0, Bytes32(len % WORD));
  }

  /** mnl_nlmsg_put_header */
  method PutHeader(buf: array<byte>)
    requires buf.Length >= NLMSG_HDRLEN
    modifies buf
    ensures buf[..] == SetLen(Overwrite(old(buf[..]), 0, Memory.Zeros(NLMSG_HDRLEN)), NLMSG_HDRLEN)
  {
    Memory.Clear(buf, 0, NLMSG_HDRLEN);
    StoreLen(buf, NLMSG_HDRLEN);
  }

  /** mnl_nlmsg_put_extra_header */
  method PutExtraHeader(buf: array<byte>, size: nat) returns (at: nat)
    requires buf.Length >= 4 && 4 <= MsgLen(buf[..])
    requires MsgLen(buf[..]) as nat + Align(size) <= buf.Length
    modifies buf
    ensures at == old(MsgLen(buf[..])) as nat
    ensures buf[..] == Overwrite(SetLen(old(buf[..]), at + Align(size)), at, Memory.Zeros(Align(size)))
  {
    at := MsgLen(buf[..]);
    StoreLen(buf, at + Align(size));
    Memory.Clear(buf, at, Align(size));
  }

  method AttrPut(buf: array<byte>, typ: u16, data: seq<byte>)
    requires buf.Length >= 4 && Tail(buf[..]) + ATTR_HDRLEN + |data| <= buf.Length
    modifies buf
    ensures buf[..] == PutAttr(old(buf[..]), typ, data)
  {
    var len, tail := MsgLen(buf[..]), Tail(buf[..]);
    var n := LenField(|data|);
    Memory.CopyIn(buf, tail, Bytes16(n) + Bytes16(typ) + data);
    StoreLen(buf, len as nat + Align(n));
  }

  method AttrPutCheck(buf: array<byte>, buflen: nat, typ: u16, data: seq<byte>) returns (ok: bool)
    requires 4 <= buflen <= buf.Length
    requires MsgLen(buf[..]) as nat + ATTR_HDRLEN + Align(|data|) <= buflen ==> Tail(buf[..]) + ATTR_HDRLEN + |data| <= buf.Length
    modifies buf
    ensures ok <==> old(MsgLen(buf[..])) as nat + ATTR_HDRLEN + Align(|data|) <= buflen
    ensures buf[..] == if ok then PutAttr(old(buf[..]), typ, data) else old(buf[..])
  {
    if MsgLen(buf[..]) as nat + ATTR_HDRLEN + Align(|data|) > buflen {
      return false;
    }
    AttrPut(buf, typ, data);
    ok := true;
  }

  method NestStart(buf: array<byte>, typ: u16) returns (start: nat)
    requires buf.Length >= 4 && Tail(buf[..]) + ATTR_HDRLEN <= buf.Length
    modifies buf
    ensures start == old(Tail(buf[..])) && buf[..] == OpenNest(old(buf[..]), typ)
  {
    var len := MsgLen(buf[..]);
    start := Tail(buf[..]);
    Memory.CopyIn(buf, start + 2, Bytes16(NestField(typ)));
    StoreLen(buf, len as nat + ATTR_HDRLEN);
  }

  method NestStartCheck(buf: array<byte>, buflen: nat, typ: u16) returns (ok: bool, start: nat)
    requires 4 <= buflen <= buf.Length
    requires MsgLen(buf[..]) as nat + ATTR_HDRLEN <= buflen ==> Tail(buf[..]) + ATTR_HDRLEN <= buf.Length
    modifies buf
    ensures ok <==> old(MsgLen(buf[..])) as nat + ATTR_HDRLEN <= buflen
    ensures start == old(Tail(buf[..]))
    ensures buf[..] == if ok then OpenNest(old(buf[..]), typ) else old(buf[..])
  {
    if MsgLen(buf[..]) as nat + ATTR_HDRLEN > buflen {
      return false, Tail(buf[..]);
    }
    start := NestStart(buf, typ);
    ok := true;
  }

  method NestEnd(buf: array<byte>, start: nat)
    requires buf.Length >= 4 && start <= Tail(buf[..]) && start + 2 <= buf.Length
    modifies buf
    ensures buf[..] == CloseNest(old(buf[..]), start)
  {
    Memory.CopyIn(buf, start, Bytes16((Tail(buf[..]) - start) % ATTR_LEN_LIMIT));
  }

  method NestCancel(buf: array<byte>, start: nat)
    requires buf.Length >= 4 && start <= Tail(buf[..])
    modifies buf
    ensures buf[..] == CancelNest(old(buf[..]), start)
  {
    StoreLen(buf, (MsgLen(buf[..]) as int - (Tail(buf[..]) - start)) % WORD);
  }

  // ------------------------------------------------ runs of bounded operations

  /** One client call.  `End` and `Cancel` close the innermost open nest; with none open the
      client holds no pointer to pass, so it makes no call. */
  datatype Op = Put(typ: u16, data: seq<byte>) | Start(typ: u16) | End | Cancel

  /** The buffer together with the nest pointers the client holds. */
  datatype Build = Build(bytes: seq<byte>, starts: seq<nat>)

  /** The length and the pointers fit the buffer and each other. */
  ghost predicate Ready(b: Build, buflen: nat) {
    && buflen <= |b.bytes| && buflen < WORD
    && |b.bytes| >= NLMSG_HDRLEN
    && Placed(MsgLen(b.bytes), b.starts, buflen)
  }

  ghost predicate Placed(len: nat, starts: seq<nat>, buflen: nat) {
    && NLMSG_HDRLEN <= len <= buflen && len % 4 == 0
    && (forall i :: 0 <= i < |starts| ==> NLMSG_HDRLEN <= starts[i] && starts[i] % 4 == 0 && starts[i] + ATTR_HDRLEN <= len)
    && (forall i, j :: 0 <= i < j < |starts| ==> starts[i] + ATTR_HDRLEN <= starts[j])
  }

  function Apply(b: Build, buflen: nat, op: Op): (r: Build)
    requires Ready(b, buflen)
    ensures Ready(r, buflen) && |r.bytes| == |b.bytes|
  {
    match op
    case Put(typ, data) => ApplyPut(b, buflen, typ, data)
    case Start(typ) => ApplyStart(b, buflen, typ)
    case End => ApplyEnd(b, buflen)
    case Cancel => ApplyCancel(b, buflen)
  }

  function ApplyPut(b: Build, buflen: nat, typ: u16, data: seq<byte>): (r: Build)
    requires Ready(b, buflen)
    ensures Ready(r, buflen) && |r.bytes| == |b.bytes|
  {
    var len: nat := MsgLen(b.bytes);
    if len + ATTR_HDRLEN + Align(|data|) > buflen then b
    else
      var len' := PutRoom(len, |data|, buflen);
      PlacedLonger(len, len', b.starts, buflen);
      Build(PutAttr(b.bytes, typ, data), b.starts)
  }

  /** The new length after a put that the bound check let through. */
  function PutRoom(len: nat, n: nat, buflen: nat): (len': nat)
    requires len % 4 == 0 && len + ATTR_HDRLEN + Align(n) <= buflen < WORD
    ensures len <= len' <= buflen && len' % 4 == 0
  {
    AlignSum(len, Align(LenField(n)));
    len + Align(LenField(n))
  }

  function ApplyStart(b: Build, buflen: nat, typ: u16): (r: Build)
    requires Ready(b, buflen)
    ensures Ready(r, buflen) && |r.bytes| == |b.bytes|
  {
    var len: nat := MsgLen(b.bytes);
    if len + ATTR_HDRLEN > buflen then b
    else
      PlacedLonger(len, len + ATTR_HDRLEN, b.starts, buflen);
      Build(OpenNest(b.bytes, typ), b.starts + [len])
  }

  function ApplyEnd(b: Build, buflen: nat): (r: Build)
    requires Ready(b, buflen)
    ensures Ready(r, buflen) && |r.bytes| == |b.bytes|
  {
    var n := |b.starts|;
    if n == 0 then b else Build(CloseNest(b.bytes, b.starts[n - 1]), b.starts[..n - 1])
  }

  function ApplyCancel(b: Build, buflen: nat): (r: Build)
    requires Ready(b, buflen)
    ensures Ready(r, buflen) && |r.bytes| == |b.bytes|
  {
    var n := |b.starts|;
    if n == 0 then b else Build(CancelNest(b.bytes, b.starts[n - 1]), b.starts[..n - 1])
  }

  lemma PlacedLonger(len: nat, len': nat, starts: seq<nat>, buflen: nat)
    requires Placed(len, starts, buflen) && len <= len' <= buflen && len' % 4 == 0
    ensures Placed(len', starts, buflen)
    ensures len + ATTR_HDRLEN <= len' ==> Placed(len', starts + [len], buflen)
  {
  }

  function Run(b: Build, buflen: nat, ops: seq<Op>): (r: Build)
    requires Ready(b, buflen)
    ensures Ready(r, buflen) && |r.bytes| == |b.bytes|
    decreases |ops|
  {
    if ops == [] then b else Run(Apply(b, buflen, ops[0]), buflen, ops[1..])
  }

  /** A buffer after put_header and put_extra_header. */
  function Fresh(s: seq<byte>, extra: nat, buflen: nat): (b: Build)
    requires NLMSG_HDRLEN + Align(extra) <= buflen <= |s| && buflen < WORD
    ensures Ready(b, buflen) && |b.bytes| == |s| && MsgLen(b.bytes) as nat == NLMSG_HDRLEN + Align(extra)
  {
    FreshLength(s, extra);
    Build(FreshBytes(s, extra), [])
  }

  function FreshBytes(s: seq<byte>, extra: nat): (r: seq<byte>)
    requires NLMSG_HDRLEN + Align(extra) <= |s|
    ensures |r| == |s|
  {
    var s1 := SetLen(Overwrite(s, 0, Memory.Zeros(NLMSG_HDRLEN)), NLMSG_HDRLEN);
    var s2 := SetLen(s1, NLMSG_HDRLEN + Align(extra));
    Overwrite(s2, NLMSG_HDRLEN, Memory.Zeros(Align(extra)))
  }

  lemma FreshLength(s: seq<byte>, extra: nat)
    requires NLMSG_HDRLEN + Align(extra) <= |s| && NLMSG_HDRLEN + Align(extra) < WORD
    ensures MsgLen(FreshBytes(s, extra)) as nat == NLMSG_HDRLEN + Align(extra) && (NLMSG_HDRLEN + Align(extra)) % 4 == 0
  {
    hide Overwrite, SetLen, MsgLen, Align;
    AlignSum(NLMSG_HDRLEN, Align(extra));
    var s1 := SetLen(Overwrite(s, 0, Memory.Zeros(NLMSG_HDRLEN)), NLMSG_HDRLEN);
    SameLength(SetLen(s1, NLMSG_HDRLEN + Align(extra)), Memory.Zeros(Align(extra)));
  }

  /** A fresh message is all zeros after its length word, and the buffer behind it is untouched. */
  lemma FreshZeros(s: seq<byte>, extra: nat)
    requires NLMSG_HDRLEN + Align(extra) <= |s|
    ensures forall i :: 4 <= i < 16 + Align(extra) ==> FreshBytes(s, extra)[i] == 0
    ensures FreshBytes(s, extra)[16 + Align(extra)..] == s[16 + Align(extra)..]
  {
    hide Align;
    var s0 := Overwrite(s, 0, Memory.Zeros(NLMSG_HDRLEN));
    var s1 := SetLen(s0, NLMSG_HDRLEN);
    var s2 := SetLen(s1, NLMSG_HDRLEN + Align(extra));
    forall i | 4 <= i < |s|
      ensures s2[i] == s0[i]
    {
      assert s2[i] == s2[4..][i - 4] == s1[4..][i - 4] == s1[i];
      assert s1[i] == s1[4..][i - 4] == s0[4..][i - 4] == s0[i];
    }
  }

  lemma SameLength(s: seq<byte>, z: seq<byte>)
    requires NLMSG_HDRLEN + |z| <= |s|
    ensures MsgLen(Overwrite(s, NLMSG_HDRLEN, z)) == MsgLen(s)
  {
    var r := Overwrite(s, NLMSG_HDRLEN, z);
    assert r[0] == s[0] && r[1] == s[1] && r[2] == s[2] && r[3] == s[3];
  }

  /** One client call. */
  method Call(buf: array<byte>, buflen: nat, op: Op, starts: seq<nat>) returns (starts': seq<nat>)
    requires Ready(Build(buf[..], starts), buflen)
    modifies buf
    ensures Build(buf[..], starts') == Apply(old(Build(buf[..], starts)), buflen, op)
  {
    var n := |starts|;
    starts' := starts;
    match op {
      case Put(typ, data) =>
        var _ := AttrPutCheck(buf, buflen, typ, data);
      case Start(typ) =>
        var ok, start := NestStartCheck(buf, buflen, typ);
        if ok {
          starts' := starts + [start];
        }
      case End =>
        if n > 0 {
          NestEnd(buf, starts[n - 1]);
          starts' := starts[..n - 1];
        }
      case Cancel =>
        if n > 0 {
          NestCancel(buf, starts[n - 1]);
          starts' := starts[..n - 1];
        }
    }
  }

  /** Both headers, in the order the source asks for. */
  method StartMessage(buf: array<byte>, extra: nat, buflen: nat)
    requires NLMSG_HDRLEN + Align(extra) <= buflen <= buf.Length && buflen < WORD
    modifies buf
    ensures buf[..] == Fresh(old(buf[..]), extra, buflen).bytes
  {
    PutHeader(buf);
    var _ := PutExtraHeader(buf, extra);
  }

  /** A client that makes the given calls in order on a fresh message. */
  method BuildMessage(buf: array<byte>, extra: nat, buflen: nat, ops: seq<Op>) returns (starts: seq<nat>)
    requires NLMSG_HDRLEN + Align(extra) <= buflen <= buf.Length && buflen < WORD
    modifies buf
    ensures Build(buf[..], starts) == Run(Fresh(old(buf[..]), extra, buflen), buflen, ops)
  {
    hide Apply, Overwrite;
    ghost var fresh0 := Fresh(buf[..], extra, buflen);
    StartMessage(buf, extra, buflen);
    starts := [];
    var i := 0;
    while i < |ops|
      invariant 0 <= i <= |ops|
      invariant Ready(Build(buf[..], starts), buflen)
      invariant Run(Build(buf[..], starts), buflen, ops[i..]) == Run(fresh0, buflen, ops)
    {
      assert ops[i..][0] == ops[i] && ops[i..][1..] == ops[i + 1..];
      starts := Call(buf, buflen, ops[i], starts);
      i := i + 1;
    }
  }
}
