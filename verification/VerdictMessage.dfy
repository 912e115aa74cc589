/** Building nfnetlink messages with libnfnetlink, and the verdict message that
    libnetfilter_queue gathers from three io-vectors. */
module VerdictMessage {
  import opened Bytes
  import opened AttrWire
  import opened Builder
  import opened BuilderMeaning
  import opened Receive
  import opened AttrParser
  import Memory

  const NFQA_VERDICT_HDR: u16 := 2
  const NLM_F_REQUEST: u16 := 1
  const VERDICT_ROOM: nat := 40

  // ---------------------------------------------------------------- nfnl_fill_hdr

  /** The sequence number after `serial`: zero is the kernel's, so the clock is used instead. */
  function NextSeq(serial: u32, now: u32): (next: u32)
    ensures now != 0 ==> next != 0
    ensures if serial as int < WORD - 1 then next as int == serial as int + 1 else next == now
  {
    var n := (serial as int + 1) % WORD;
    if n == 0 then now else n
  }

  /** What a caller puts in the two headers. */
  datatype Header = Header(subsys: byte, msgType: u16, flags: u16, serial: u32, family: byte, resId: u16)

  /** The twenty bytes of the two headers; the type field is the subsystem shifted by eight bits,
      or the message type. */
  function HeaderBytes(h: Header, len: nat): (b: seq<byte>)
    ensures |b| == NFGEN_LEN
  {
    Bytes32(len % WORD) + HeaderRest(h)
  }

  /** What follows the length. */
  function HeaderRest(h: Header): (b: seq<byte>)
    ensures |b| == NFGEN_LEN - 4
  {
    [h.msgType % 0x100, OrBytes(h.subsys, h.msgType / 0x100)] + Bytes16(h.flags) + Bytes32(h.serial) + Bytes32(0) + [h.family, 0] + Net16(h.resId)
  }

  /** nfnl_fill_hdr.  A handle that tracks sequence numbers uses its next one and the others
      send zero; the handle's counter is handed back. */
  method FillHdr(buf: array<byte>, h: Header, len: nat, track: bool, now: u32) returns (serial': u32)
    requires buf.Length >= NFGEN_LEN
    modifies buf
    ensures serial' == if track then NextSeq(h.serial, now) else h.serial
    ensures buf[..] == Overwrite(old(buf[..]), 0, HeaderBytes(h.(serial := if track then serial' else 0), NFGEN_LEN + len))
  {
    serial' := if track then NextSeq(h.serial, now) else h.serial;
    Memory.CopyIn(buf, 0, HeaderBytes(h.(serial := if track then serial' else 0), NFGEN_LEN + len));
  }

  /** What the receive path and the queue lookup read from a filled header is what was put in;
      for the subsystem and the type, exactly when the type leaves the subsystem byte alone. */
  lemma HeaderReads(m: seq<byte>, h: Header, len: nat)
    requires |m| >= NFGEN_LEN && m[4..NFGEN_LEN] == HeaderBytes(h, len)[4..]
    ensures SubsysId(m) == OrBytes(h.subsys, h.msgType / 0x100) as nat && MsgType(m) == h.msgType as nat % 0x100
    ensures SubsysId(m) == h.subsys as nat && MsgType(m) == h.msgType as nat <==> h.msgType < 0x100
    ensures Le16(m, 6) == h.flags && Le32(m, 8) == h.serial && Be16(m, 18) == h.resId
    ensures Le32(m, 12) as int == 0 && m[16] == h.family && m[17] == 0
  {
    var b := HeaderBytes(h, len);
    forall i | 4 <= i < NFGEN_LEN
      ensures m[i] == b[i]
    {
      assert m[i] == m[4..NFGEN_LEN][i - 4] == b[4..][i - 4];
    }
    assert Le16(m, 6) == Le16(Bytes16(h.flags), 0);
    assert Le32(m, 8) == Le32(Bytes32(h.serial), 0);
    assert Be16(m, 18) == Be16(Net16(h.resId), 0);
    assert Le32(m, 12) == Le32(Bytes32(0), 0);
  }

  // ---------------------------------------------------------------- nfnl_addattr_l

  /** nfnl_addattr_l when there is room: the length field wraps at 16 bits, and the padding is
      cleared from where that field says the attribute ends. */
  function AddAttr(s: seq<byte>, typ: u16, data: seq<byte>): (r: seq<byte>)
    requires |s| >= 4 && Tail(s) + Align(ATTR_HDRLEN + |data|) <= |s|
    ensures |r| == |s|
    ensures Tail(s) + Align(ATTR_HDRLEN + |data|) < WORD ==> MsgLen(r) as nat == Tail(s) + Align(ATTR_HDRLEN + |data|)
  {
    var n := LenField(|data|);
    var filled := Overwrite(s, Tail(s), Bytes16(n) + Bytes16(typ) + data);
    var padded := Overwrite(filled, Tail(s) + n as nat, Memory.Zeros(Align(|data|) - |data|));
    SetLen(padded, Tail(s) + Align(ATTR_HDRLEN + |data|))
  }

  /** A refused addition changes nothing; the bound is checked on the unpadded length. */
  function AddOrKeep(s: seq<byte>, maxlen: nat, typ: u16, data: seq<byte>): (r: seq<byte>)
    requires |s| >= 4 && Align(maxlen) <= |s|
    ensures |r| == |s|
  {
    if Tail(s) + (ATTR_HDRLEN + |data|) > maxlen then s
    else
      AlignMono(Tail(s), ATTR_HDRLEN + |data|, maxlen);
      AddAttr(s, typ, data)
  }

  method AddAttrL(buf: array<byte>, maxlen: nat, typ: u16, data: seq<byte>) returns (ok: bool)
    requires 4 <= maxlen && Align(maxlen) <= buf.Length < WORD
    modifies buf
    ensures ok <==> old(Tail(buf[..])) + ATTR_HDRLEN + |data| <= maxlen
    ensures buf[..] == AddOrKeep(old(buf[..]), maxlen, typ, data)
  {
    hide AddAttr, MsgLen;
    if Tail(buf[..]) + (ATTR_HDRLEN + |data|) > maxlen {
      return false;
    }
    AlignMono(Tail(buf[..]), ATTR_HDRLEN + |data|, maxlen);
    StoreAttr(buf, typ, data);
    ok := true;
  }

  /** The call clears padding past the bound that it checked: whatever the buffer and the
      attribute, the bytes at and past the bound are left alone if and only if the bound is a
      multiple of four. */
  lemma PaddingInsideIff(maxlen: nat)
    requires NFGEN_LEN + ATTR_HDRLEN <= maxlen && Align(maxlen) < WORD
    ensures (forall s, typ, data :: Align(maxlen) <= |s| < WORD ==> AddOrKeep(s, maxlen, typ, data)[maxlen..] == s[maxlen..])
            <==> maxlen % 4 == 0
  {
    if maxlen % 4 == 0 {
      forall s, typ, data | Align(maxlen) <= |s| < WORD
        ensures AddOrKeep(s, maxlen, typ, data)[maxlen..] == s[maxlen..]
      {
        KeepsBeyond(s, maxlen, typ, data);
      }
    } else {
      var s := PaddingWitness(maxlen);
      ClearsBeyond(s, maxlen);
      assert AddOrKeep(s, maxlen, 0, Memory.Zeros(maxlen % 4))[maxlen..][0] == 0 != s[maxlen..][0];
    }
  }

  /** A message that ends four bytes before the last word of its bound, in a buffer of ones. */
  function PaddingWitness(maxlen: nat): (s: seq<byte>)
    requires NFGEN_LEN + ATTR_HDRLEN <= maxlen && Align(maxlen) < WORD
    ensures |s| == Align(maxlen) && MsgLen(s) as nat == maxlen / 4 * 4 - 4
    ensures forall i :: 4 <= i < |s| ==> s[i] == 0xff
  {
    var h := Bytes32(maxlen / 4 * 4 - 4);
    var s := h + seq(Align(maxlen) - 4, _ => 0xff);
    assert s[..4] == h;
    assert Le32(s, 0) == Le32(h, 0);
    s
  }

  lemma ClearsBeyond(s: seq<byte>, maxlen: nat)
    requires NFGEN_LEN + ATTR_HDRLEN <= maxlen && maxlen % 4 != 0 && |s| == Align(maxlen) < WORD
    requires MsgLen(s) as nat == maxlen / 4 * 4 - 4
    ensures AddOrKeep(s, maxlen, 0, Memory.Zeros(maxlen % 4))[maxlen] == 0
  {
    hide AddAttr, MsgLen;
    var data := Memory.Zeros(maxlen % 4);
    assert Tail(s) == maxlen / 4 * 4 - 4;
    assert Size(Leaf(0, data)) == 8;
    AddsLeaf(s, 0, data);
  }

  lemma KeepsBeyond(s: seq<byte>, maxlen: nat, typ: u16, data: seq<byte>)
    requires 4 <= maxlen && maxlen % 4 == 0 && maxlen <= |s|
    ensures AddOrKeep(s, maxlen, typ, data)[maxlen..] == s[maxlen..]
  {
    hide MsgLen, Overwrite, SetLen;
    if Tail(s) + (ATTR_HDRLEN + |data|) <= maxlen {
      AlignMono(Tail(s), ATTR_HDRLEN + |data|, maxlen);
      var n, at := LenField(|data|), Tail(s);
      var w, z := Bytes16(n) + Bytes16(typ) + data, Memory.Zeros(Align(|data|) - |data|);
      OverwriteBeyond(s, at, w, maxlen);
      var filled := Overwrite(s, at, w);
      OverwriteBeyond(filled, at + n as nat, z, maxlen);
      var padded := Overwrite(filled, at + n as nat, z);
      SameSlice(AddAttr(s, typ, data), padded, 4, maxlen, |s|);
    }
  }

  lemma OverwriteBeyond(s: seq<byte>, i: nat, t: seq<byte>, k: nat)
    requires i + |t| <= k <= |s|
    ensures Overwrite(s, i, t)[k..] == s[k..]
  {
  }

  /** The stores of nfnl_addattr_l. */
  method StoreAttr(buf: array<byte>, typ: u16, data: seq<byte>)
    requires buf.Length >= 4 && Tail(buf[..]) + Align(ATTR_HDRLEN + |data|) <= buf.Length
    modifies buf
    ensures buf[..] == AddAttr(old(buf[..]), typ, data)
  {
    hide Overwrite, SetLen, MsgLen;
    var tail, n := Tail(buf[..]), LenField(|data|);
    Memory.CopyIn(buf, tail, Bytes16(n) + Bytes16(typ) + data);
    Memory.Clear(buf, tail + n as nat, Align(|data|) - |data|);
    StoreLen(buf, tail + Align(ATTR_HDRLEN + |data|));
  }

  /** Within the 16-bit length field the call appends one attribute and its zeroed padding. */
  lemma AddsLeaf(s: seq<byte>, typ: u16, data: seq<byte>)
    requires |s| >= 4 && 4 <= Tail(s) && ATTR_HDRLEN + |data| < ATTR_LEN_LIMIT
    requires Tail(s) + Size(Leaf(typ, data)) <= |s| < WORD
    ensures var r, at, n := AddAttr(s, typ, data), Tail(s), Size(Leaf(typ, data));
            && MsgLen(r) as nat == at + n && r[4..at] == s[4..at]
            && Encodes(Leaf(typ, data), r[at..at + n])
            && forall i :: at + ATTR_HDRLEN + |data| <= i < at + n ==> r[i] == 0
  {
    hide MsgLen, Encodes;
    var at, n := Tail(s), Size(Leaf(typ, data));
    var w := Bytes16(LenField(|data|)) + Bytes16(typ) + data;
    var z := Memory.Zeros(Align(|data|) - |data|);
    hide AddAttr;
    var r := AddAttr(s, typ, data);
    AddWrites(s, typ, data);
    Padded(s, at, w, z, r);
    LeafEncoded(typ, data, r[at..at + n]);
  }

  lemma AddWrites(s: seq<byte>, typ: u16, data: seq<byte>)
    requires |s| >= 4 && ATTR_HDRLEN + |data| < ATTR_LEN_LIMIT && Tail(s) + Align(ATTR_HDRLEN + |data|) <= |s|
    ensures var w := Bytes16(LenField(|data|)) + Bytes16(typ) + data;
            var z := Memory.Zeros(Align(|data|) - |data|);
            && |w| == ATTR_HDRLEN + |data| && |w| + |z| == Align(ATTR_HDRLEN + |data|)
            && AddAttr(s, typ, data)[4..] == Overwrite(Overwrite(s, Tail(s), w), Tail(s) + |w|, z)[4..]
  {
    hide Overwrite, SetLen, MsgLen;
  }

  lemma Padded(s: seq<byte>, at: nat, w: seq<byte>, z: seq<byte>, r: seq<byte>)
    requires 4 <= at && at + |w| + |z| <= |s| == |r| && r[4..] == Overwrite(Overwrite(s, at, w), at + |w|, z)[4..]
    ensures r[4..at] == s[4..at] && r[at..at + |w| + |z|][..|w|] == w
    ensures forall i :: at + |w| <= i < at + |w| + |z| ==> r[i] == z[i - at - |w|]
  {
    var padded := Overwrite(Overwrite(s, at, w), at + |w|, z);
    forall i | 4 <= i < |s|
      ensures r[i] == padded[i]
    {
      assert r[i] == r[4..][i - 4] == padded[4..][i - 4];
    }
  }

  lemma AddRoom(s: seq<byte>, ts: seq<Attr>)
    requires ts != [] && ts[0].Leaf?
    requires |s| >= 4 && Tail(s) + SizeAll(ts) <= |s| < WORD
    ensures Tail(s) + Align(ATTR_HDRLEN + |ts[0].data|) <= |s|
    ensures var r := AddAttr(s, ts[0].typ, ts[0].data); Tail(r) == MsgLen(r) as nat && Tail(r) + SizeAll(ts[1..]) <= |s|
  {
    hide AddAttr, MsgLen;
    assert Size(ts[0]) == Align(ATTR_HDRLEN + |ts[0].data|);
  }

  lemma NoSize()
    ensures SizeAll([]) == 0
  {
  }

  lemma NothingEncoded(s: seq<byte>)
    requires s == []
    ensures EncodesAll([], s)
  {
  }

  lemma HeadParts(ts: seq<Attr>)
    requires ts != []
    ensures SizeAll(ts) == Size(ts[0]) + SizeAll(ts[1..])
    ensures FitAll(ts) ==> Fits(ts[0]) && FitAll(ts[1..])
    ensures Fits(ts[0]) && ts[0].Leaf? ==> ATTR_HDRLEN + |ts[0].data| < ATTR_LEN_LIMIT
  {
  }

  /** Any number of attributes added in turn. */
  function AddAll(s: seq<byte>, ts: seq<Attr>): (r: seq<byte>)
    requires forall t <- ts :: t.Leaf?
    requires |s| >= 4 && Tail(s) + SizeAll(ts) <= |s| < WORD
    ensures |r| == |s|
    decreases |ts|
  {
    if ts == [] then s else AddRoom(s, ts); AddAll(AddAttr(s, ts[0].typ, ts[0].data), ts[1..])
  }

  lemma {:induction false} AddAllEncodes(s: seq<byte>, area: nat, done: seq<Attr>, ts: seq<Attr>)
    requires (forall t <- ts :: t.Leaf?) && FitAll(ts)
    requires |s| >= 4 && 4 <= area <= Tail(s) == MsgLen(s) as nat && Tail(s) + SizeAll(ts) <= |s| < WORD
    requires EncodesAll(done, s[area..MsgLen(s)])
    ensures var r := AddAll(s, ts);
            && MsgLen(r) as nat == Tail(r) == MsgLen(s) as nat + SizeAll(ts)
            && r[4..MsgLen(s)] == s[4..MsgLen(s)]
            && EncodesAll(done + ts, r[area..MsgLen(r)])
    decreases |ts|
  {
    hide AddAttr, MsgLen, Encodes, EncodesAll, Size, SizeAll, FitAll, Fits;
    if ts == [] {
      assert done + ts == done;
      NoSize();
    } else {
      var t, len := ts[0], MsgLen(s) as nat;
      assert t in ts;
      AddRoom(s, ts);
      HeadParts(ts);
      var r := AddAttr(s, t.typ, t.data);
      AddsLeaf(s, t.typ, t.data);
      EncodesAppend(done, s[area..len], t, r[len..len + Size(t)]);
      AppendedArea(s, r, area, len, Size(t));
      AddAllEncodes(r, area, done + [t], ts[1..]);
      PrefixKept(s, r, AddAll(r, ts[1..]), len, len + Size(t));
      assert done + [t] + ts[1..] == done + ts;
    }
  }

  lemma PrefixKept(a: seq<byte>, b: seq<byte>, c: seq<byte>, n: nat, m: nat)
    requires 4 <= n <= m <= |a| == |b| == |c| && a[4..n] == b[4..n] && b[4..m] == c[4..m]
    ensures c[4..n] == a[4..n]
  {
    SlicePrefix(b, 4, m, n - 4);
    SlicePrefix(c, 4, m, n - 4);
  }

  /** libmnl reads the attributes that libnfnetlink added, in order. */
  lemma AddedReads(s: seq<byte>, ts: seq<Attr>)
    requires (forall t <- ts :: t.Leaf?) && FitAll(ts)
    requires |s| >= 4 && 4 <= Tail(s) == MsgLen(s) as nat && Tail(s) + SizeAll(ts) <= |s| < WORD
    ensures var r := AddAll(s, ts);
            MsgLen(s) <= MsgLen(r) as nat <= |r| && ReadTrees(r[MsgLen(s)..MsgLen(r)]) == ts
  {
    AddAllEncodes(s, MsgLen(s), [], ts);
    assert [] + ts == ts;
    ReadEncoded(ts, AddAll(s, ts)[MsgLen(s)..MsgLen(AddAll(s, ts))]);
  }

  // ---------------------------------------------------------------- the verdict message

  /** nfnl_build_nfa_iovec: the attribute header, and the length of the value's vector.  The two
      vectors together are an encoding of the attribute, unless the length field has wrapped. */
  method BuildNfaIovec(typ: u16, len: nat) returns (nfa: seq<byte>, iovLen: nat)
    ensures |nfa| == ATTR_HDRLEN && Le16(nfa, 0) == LenField(len) && Le16(nfa, 2) == typ && iovLen == Align(len)
    ensures Le16(nfa, 0) as nat == ATTR_HDRLEN + len <==> len <= 65531
    ensures len <= 65531 ==> forall val: seq<byte> :: |val| == iovLen ==> Encodes(Leaf(typ, val[..len]), nfa + val)
  {
    nfa := Bytes16((ATTR_HDRLEN + len) % ATTR_LEN_LIMIT) + Bytes16(typ);
    iovLen := Align(len);
    hide Encodes, Align, Le16;
    assert nfa + [] == nfa && nfa[..ATTR_HDRLEN] == nfa;
    LeafHeader(typ, LenField(len), [], nfa);
    forall val: seq<byte> | len <= 65531 && |val| == iovLen
      ensures Encodes(Leaf(typ, val[..len]), nfa + val)
    {
      IovecEncodes(typ, len, nfa, val);
    }
  }

  lemma IovecEncodes(typ: u16, len: nat, nfa: seq<byte>, val: seq<byte>)
    requires len <= 65531 && |val| == Align(len) && nfa == Bytes16(LenField(len)) + Bytes16(typ)
    ensures Encodes(Leaf(typ, val[..len]), nfa + val)
  {
    hide Encodes;
    LeafSize(Leaf(typ, val[..len]));
    assert (nfa + val)[..ATTR_HDRLEN + len] == Bytes16(LenField(len)) + Bytes16(typ) + val[..len];
    LeafEncoded(typ, val[..len], nfa + val);
  }

  /** The bytes of an attribute header are determined by its two fields. */
  lemma NfaBytes(nfa: seq<byte>)
    requires |nfa| == ATTR_HDRLEN
    ensures nfa == Bytes16(Le16(nfa, 0)) + Bytes16(Le16(nfa, 2))
  {
  }

  /** The attributes that a verdict stands for. */
  function VerdictAttrs(id: u32, verdict: u32, setMark: bool, mark: u32, payload: seq<byte>): seq<Attr> {
    [Leaf(NFQA_VERDICT_HDR, Net32(verdict) + Net32(id))]
    + (if setMark then [Leaf(NFQA_MARK, Bytes32(mark))] else [])
    + (if payload != [] then [Leaf(NFQA_PAYLOAD, payload)] else [])
  }

  /** The kernel reads the verdict and the packet id in network order and the mark as stored,
      and the parse table of libnetfilter_queue has each attribute in its own slot. */
  lemma VerdictFields(id: u32, verdict: u32, setMark: bool, mark: u32, payload: seq<byte>)
    ensures var ts := VerdictAttrs(id, verdict, setMark, mark, payload);
            && ts[0].typ == NFQA_VERDICT_HDR && Be32(ts[0].data, 0) == verdict && Be32(ts[0].data, 4) == id
            && (forall t <- ts :: t.typ as int == NFQA_MARK ==> setMark && Le32(t.data, 0) == mark)
            && (forall t <- ts :: t.typ as int == NFQA_PAYLOAD ==> payload != [] && t.data == payload)
            && (setMark <==> exists t <- ts :: t.typ as int == NFQA_MARK)
            && (payload != [] <==> exists t <- ts :: t.typ as int == NFQA_PAYLOAD)
  {
    var ts := VerdictAttrs(id, verdict, setMark, mark, payload);
    var vh := Net32(verdict) + Net32(id);
    assert Be32(vh, 0) == Be32(Net32(verdict), 0) && Be32(vh, 4) == Be32(Net32(id), 0);
    if setMark {
      assert ts[1].typ as int == NFQA_MARK && ts[1] in ts;
    }
    if payload != [] {
      assert ts[|ts| - 1].typ as int == NFQA_PAYLOAD && ts[|ts| - 1] in ts;
    }
  }

  /** A receiver that walks the gathered bytes, to the aligned end or to nlmsg_len, finds the
      header of a message for that queue and exactly the given attributes. */
  ghost predicate Carries(msg: seq<byte>, qid: u16, msgType: byte, serial: u32, ts: seq<Attr>) {
    && |msg| >= NFGEN_LEN && NFGEN_LEN <= MsgLen(msg) as nat <= |msg|
    && SubsysId(msg) == NFNL_SUBSYS_QUEUE && MsgType(msg) == msgType as nat
    && Le16(msg, 6) as int == 1 && Le32(msg, 8) == serial && Le32(msg, 12) as int == 0
    && msg[16] == 0 && msg[17] == 0 && Be16(msg, 18) == qid
    && ReadTrees(msg[NFGEN_LEN..]) == ts && ReadTrees(msg[NFGEN_LEN..MsgLen(msg)]) == ts
  }

  function QueueHeader(qid: u16, msgType: byte, serial: u32): Header {
    Header(NFNL_SUBSYS_QUEUE, msgType, NLM_F_REQUEST, serial, 0, qid)
  }

  /** The part of __set_verdict that fills the local buffer; neither addition can fail. */
  method FillVerdict(qid: u16, id: u32, verdict: u32, mark: u32, setMark: bool, msgType: byte, track: bool, serial: u32, now: u32)
      returns (u: array<byte>, serial': u32)
    ensures fresh(u) && u.Length == VERDICT_ROOM && serial' == if track then NextSeq(serial, now) else serial
    ensures Tail(u[..]) == MsgLen(u[..]) as nat == if setMark then 40 else 32
    ensures FitAll(VerdictAttrs(id, verdict, setMark, mark, []))
    ensures EncodesAll(VerdictAttrs(id, verdict, setMark, mark, []), u[NFGEN_LEN..MsgLen(u[..])])
    ensures u[4..NFGEN_LEN] == HeaderBytes(QueueHeader(qid, msgType, if track then serial' else 0), NFGEN_LEN)[4..]
  {
    hide AddAttr, MsgLen, EncodesAll, HeaderBytes, FitAll, AddAll, SizeAll;
    u := new byte[VERDICT_ROOM];
    ghost var was := u[..];
    serial' := FillHdr(u, QueueHeader(qid, msgType, serial), 0, track, now);
    ghost var s0 := u[..];
    HeaderStored(s0, was, QueueHeader(qid, msgType, if track then serial' else 0), NFGEN_LEN);
    ghost var vh := Leaf(NFQA_VERDICT_HDR, Net32(verdict) + Net32(id));
    var ok := AddAttrL(u, VERDICT_ROOM, NFQA_VERDICT_HDR, Net32(verdict) + Net32(id));
    assert ok;
    ghost var ts := [vh];
    if setMark {
      ok := AddAttrL(u, VERDICT_ROOM, NFQA_MARK, Bytes32(mark));
      assert ok;
      ts := [vh, Leaf(NFQA_MARK, Bytes32(mark))];
    }
    assert ts == VerdictAttrs(id, verdict, setMark, mark, []);
    AddOneOrTwo(s0, vh, Leaf(NFQA_MARK, Bytes32(mark)));
    VerdictFits(id, verdict, setMark, mark);
    NothingEncoded(s0[NFGEN_LEN..NFGEN_LEN]);
    AddAllEncodes(s0, NFGEN_LEN, [], ts);
    assert [] + ts == ts;
  }

  lemma VerdictFits(id: u32, verdict: u32, setMark: bool, mark: u32)
    ensures FitAll(VerdictAttrs(id, verdict, setMark, mark, []))
    ensures SizeAll(VerdictAttrs(id, verdict, setMark, mark, [])) == if setMark then 20 else 12
  {
    var ts := VerdictAttrs(id, verdict, setMark, mark, []);
    var vh, mk := Leaf(NFQA_VERDICT_HDR, Net32(verdict) + Net32(id)), Leaf(NFQA_MARK, Bytes32(mark));
    assert Size(vh) == 12 && Size(mk) == 8 && Fits(vh) && Fits(mk);
    assert FitAll([]) && [vh][1..] == [] && [mk][1..] == [] && [vh, mk][1..] == [mk];
    assert FitAll([mk]) && SizeAll([mk]) == 8;
    assert ts == if setMark then [vh, mk] else [vh];
  }

  lemma AddOneOrTwo(s: seq<byte>, a: Attr, b: Attr)
    requires |s| == VERDICT_ROOM && MsgLen(s) as nat == NFGEN_LEN
    requires a.Leaf? && |a.data| == 8 && b.Leaf? && |b.data| == 4
    ensures SizeAll([a]) == 12 && SizeAll([a, b]) == 20
    ensures AddAll(s, [a]) == AddAttr(s, a.typ, a.data)
    ensures AddAll(s, [a, b]) == AddAttr(AddAttr(s, a.typ, a.data), b.typ, b.data)
  {
    hide AddAttr, MsgLen;
    assert [a][1..] == [] && [a, b][1..] == [b] && [b][1..] == [];
    assert Size(a) == 12 && Size(b) == 8;
    HeadParts([a]);
    HeadParts([a, b]);
    HeadParts([b]);
    AddRoom(s, [a]);
    AddRoom(s, [a, b]);
    var r := AddAttr(s, a.typ, a.data);
    AddRoom(r, [b]);
    assert AddAll(r, [b]) == AddAttr(r, b.typ, b.data);
  }

  lemma HeaderStored(s: seq<byte>, was: seq<byte>, h: Header, len: nat)
    requires |was| >= NFGEN_LEN && s == Overwrite(was, 0, HeaderBytes(h, len)) && len < WORD
    ensures MsgLen(s) as nat == len && s[4..NFGEN_LEN] == HeaderBytes(h, len)[4..]
  {
    var b := HeaderBytes(h, len);
    assert b[..4] == Bytes32(len);
    hide HeaderBytes, Overwrite;
    OverwriteSlices(was, 0, b);
    assert s[..NFGEN_LEN] == b;
    assert s[4..NFGEN_LEN] == s[..NFGEN_LEN][4..];
    assert s[..4] == s[..NFGEN_LEN][..4] == Bytes32(len);
  }

  /** __set_verdict: the bytes that its io-vectors gather, for a payload of `dataLen` bytes at
      the start of `mem`, which must be readable up to the alignment. */
  method SetVerdict(qid: u16, id: u32, verdict: u32, mark: u32, setMark: bool, dataLen: nat, mem: seq<byte>, msgType: byte, track: bool, serial: u32, now: u32)
      returns (msg: seq<byte>, serial': u32)
    requires Align(dataLen) <= |mem| && Align(dataLen) < WORD
    ensures serial' == if track then NextSeq(serial, now) else serial
    ensures |msg| >= NFGEN_LEN && |msg| % 4 == 0
    ensures |msg| == Align(MsgLen(msg)) <==> ATTR_HDRLEN + dataLen < ATTR_LEN_LIMIT
    ensures Carries(msg, qid, msgType, if track then serial' else 0, VerdictAttrs(id, verdict, setMark, mark, mem[..dataLen]))
            <==> ATTR_HDRLEN + dataLen < ATTR_LEN_LIMIT
    ensures dataLen == 65532 ==>
              |msg| == MsgLen(msg) as nat + 65536 && MsgLen(msg) as nat >= NFGEN_LEN
              && ReadTrees(msg[NFGEN_LEN..MsgLen(msg)]) == VerdictAttrs(id, verdict, setMark, mark, [])
    ensures dataLen == 0 && !setMark ==> msg == VerdictBytes(qid, id, verdict, msgType, if track then serial' else 0)
  {
    hide ReadTrees, ThreeVectors, VerdictBytes, MsgLen, EncodesAll, HeaderBytes, FitAll, Carries, VerdictAttrs, SetLen;
    var u;
    u, serial' := FillVerdict(qid, id, verdict, mark, setMark, msgType, track, serial, now);
    ghost var s := u[..];
    var n := Tail(u[..]);
    if dataLen == 0 {
      msg := u[..n];
      HeaderOnly(s, n, qid, msgType, if track then serial' else 0, VerdictAttrs(id, verdict, setMark, mark, []));
      if !setMark {
        VerdictUnique(s, n, qid, id, verdict, mark, msgType, if track then serial' else 0);
      }
    } else {
      var nfa, iovLen := BuildNfaIovec(NFQA_PAYLOAD, dataLen);
      NfaBytes(nfa);
      StoreLen(u, n + Le16(nfa, 0) as nat);
      msg := u[..n] + nfa + mem[..iovLen];
      VectorsSent(s, n, mem, dataLen, msg, nfa, u[..n]);
      PayloadLast(id, verdict, setMark, mark, mem[..dataLen]);
      PayloadSent(s, n, mem, dataLen, msg, VerdictAttrs(id, verdict, setMark, mark, []), qid, msgType, if track then serial' else 0);
    }
  }

  lemma VectorsSent(s: seq<byte>, n: nat, mem: seq<byte>, dataLen: nat, msg: seq<byte>, nfa: seq<byte>, head: seq<byte>)
    requires NFGEN_LEN <= n <= |s| && n % 4 == 0 && Align(dataLen) <= |mem|
    requires head == SetLen(s, n + LenField(dataLen) as nat)[..n] && nfa == Bytes16(LenField(dataLen)) + Bytes16(NFQA_PAYLOAD)
    requires msg == head + nfa + mem[..Align(dataLen)]
    ensures ThreeVectors(s, n, mem, dataLen, msg)
  {
  }

  /** The bytes of a verdict without a mark and without a payload. */
  function VerdictBytes(qid: u16, id: u32, verdict: u32, msgType: byte, serial: u32): (b: seq<byte>)
    ensures |b| == 32
  {
    HeaderBytes(QueueHeader(qid, msgType, serial), 32) + (Bytes16(12) + Bytes16(NFQA_VERDICT_HDR) + (Net32(verdict) + Net32(id)))
  }

  lemma VerdictUnique(s: seq<byte>, n: nat, qid: u16, id: u32, verdict: u32, mark: u32, msgType: byte, serial: u32)
    requires n == 32 <= |s| && MsgLen(s) as nat == n
    requires s[4..NFGEN_LEN] == HeaderBytes(QueueHeader(qid, msgType, serial), NFGEN_LEN)[4..]
    requires EncodesAll(VerdictAttrs(id, verdict, false, mark, []), s[NFGEN_LEN..n])
    ensures s[..n] == VerdictBytes(qid, id, verdict, msgType, serial)
  {
    hide HeaderBytes, MsgLen, EncodesAll;
    var data := Net32(verdict) + Net32(id);
    var h := QueueHeader(qid, msgType, serial);
    var p := s[NFGEN_LEN..n];
    assert VerdictAttrs(id, verdict, false, mark, []) == [Leaf(NFQA_VERDICT_HDR, data)];
    OneLeaf(NFQA_VERDICT_HDR, data, p);
    HeaderWord(h, 32);
    HeaderWord(h, NFGEN_LEN);
    LengthWord(s);
    assert s[..n] == s[..4] + s[4..NFGEN_LEN] + p;
  }

  /** Those bytes carry the verdict. */
  lemma VerdictCarried(qid: u16, id: u32, verdict: u32, msgType: byte, serial: u32)
    ensures Carries(VerdictBytes(qid, id, verdict, msgType, serial), qid, msgType, serial, VerdictAttrs(id, verdict, false, 0, []))
  {
    hide HeaderBytes, MsgLen, EncodesAll, FitAll, Carries, Encodes;
    var s, h := VerdictBytes(qid, id, verdict, msgType, serial), QueueHeader(qid, msgType, serial);
    var data := Net32(verdict) + Net32(id);
    var p, t := Bytes16(12) + Bytes16(NFQA_VERDICT_HDR) + data, Leaf(NFQA_VERDICT_HDR, data);
    assert s == HeaderBytes(h, 32) + p && s[NFGEN_LEN..32] == p;
    HeaderWord(h, 32);
    HeaderWord(h, NFGEN_LEN);
    assert s[4..NFGEN_LEN] == HeaderBytes(h, 0)[4..] == HeaderBytes(h, NFGEN_LEN)[4..];
    FirstWord(s, 32);
    assert LenField(|data|) == 12 && Size(t) == 12;
    assert p[..ATTR_HDRLEN + |data|] == p;
    LeafEncoded(NFQA_VERDICT_HDR, data, p);
    NothingEncoded([]);
    EncodesAppend([], [], t, p);
    assert VerdictAttrs(id, verdict, false, 0, []) == [] + [t] && [] + p == p;
    VerdictFits(id, verdict, false, 0);
    HeaderOnly(s, 32, qid, msgType, serial, [] + [t]);
    assert s[..32] == s;
  }

  lemma FirstWord(s: seq<byte>, len: u32)
    requires |s| >= 4 && s[..4] == Bytes32(len)
    ensures MsgLen(s) == len
  {
    assert Le32(s, 0) == Le32(s[..4], 0);
  }

  lemma LengthWord(s: seq<byte>)
    requires |s| >= 4
    ensures s[..4] == Bytes32(MsgLen(s))
  {
    WordBytes(s);
  }

  /** Only the first four bytes of the headers depend on the length. */
  lemma HeaderWord(h: Header, len: nat)
    requires len < WORD
    ensures HeaderBytes(h, len) == Bytes32(len) + HeaderBytes(h, 0)[4..]
  {
    hide HeaderRest;
    assert (Bytes32(0) + HeaderRest(h))[4..] == HeaderRest(h);
  }

  /** A leaf without padding has one encoding. */
  lemma OneLeaf(typ: u16, data: seq<byte>, p: seq<byte>)
    requires EncodesAll([Leaf(typ, data)], p) && |data| % 4 == 0
    ensures p == Bytes16(Le16(p, 0)) + Bytes16(typ) + data && Le16(p, 0) as nat == ATTR_HDRLEN + |data|
  {
    var t := Leaf(typ, data);
    hide Le16;
    EncodedParts([t], p);
    EncodesSize([t], p);
    HeadParts([t]);
    NoSize();
    assert [t][1..] == [] && p[..Size(t)] == p;
    NfaBytes(p[..ATTR_HDRLEN]);
    HeaderOfPrefix(p, ATTR_HDRLEN);
    assert p == p[..ATTR_HDRLEN] + p[ATTR_HDRLEN..];
    assert p[ATTR_HDRLEN..] == p[ATTR_HDRLEN..ATTR_HDRLEN + |data|];
  }

  lemma PayloadLast(id: u32, verdict: u32, setMark: bool, mark: u32, payload: seq<byte>)
    requires payload != []
    ensures VerdictAttrs(id, verdict, setMark, mark, payload) == VerdictAttrs(id, verdict, setMark, mark, []) + [Leaf(NFQA_PAYLOAD, payload)]
  {
  }

  /** The header fields that the three vectors carry. */
  lemma VerdictHeader(s: seq<byte>, n: nat, msg: seq<byte>, qid: u16, msgType: byte, serial: u32)
    requires NFGEN_LEN <= n <= |s| && |msg| >= n && msg[4..n] == s[4..n]
    requires s[4..NFGEN_LEN] == HeaderBytes(QueueHeader(qid, msgType, serial), NFGEN_LEN)[4..]
    ensures SubsysId(msg) == NFNL_SUBSYS_QUEUE as nat && MsgType(msg) == msgType as nat
    ensures Le16(msg, 6) == NLM_F_REQUEST && Le32(msg, 8) == serial && Be16(msg, 18) == qid
    ensures Le32(msg, 12) as int == 0 && msg[16] == 0 && msg[17] == 0
  {
    SlicePrefix(s, 4, n, NFGEN_LEN - 4);
    SlicePrefix(msg, 4, n, NFGEN_LEN - 4);
    HeaderReads(msg, QueueHeader(qid, msgType, serial), NFGEN_LEN);
  }

  lemma HeaderOnly(s: seq<byte>, n: nat, qid: u16, msgType: byte, serial: u32, ts: seq<Attr>)
    requires NFGEN_LEN <= n <= |s| && MsgLen(s) as nat == n && n % 4 == 0
    requires EncodesAll(ts, s[NFGEN_LEN..n]) && FitAll(ts)
    requires s[4..NFGEN_LEN] == HeaderBytes(QueueHeader(qid, msgType, serial), NFGEN_LEN)[4..]
    ensures |s[..n]| == Align(MsgLen(s[..n])) && Carries(s[..n], qid, msgType, serial, ts)
  {
    var msg := s[..n];
    assert msg[4..n] == s[4..n] && msg[NFGEN_LEN..] == s[NFGEN_LEN..n] == msg[NFGEN_LEN..n];
    assert MsgLen(msg) == MsgLen(s);
    VerdictHeader(s, n, msg, qid, msgType, serial);
    ReadEncoded(ts, s[NFGEN_LEN..n]);
  }

  /** Three vectors: the message with its final length, the attribute header and the value. */
  ghost predicate ThreeVectors(s: seq<byte>, n: nat, mem: seq<byte>, dataLen: nat, msg: seq<byte>) {
    && NFGEN_LEN <= n <= |s| && n % 4 == 0 && Align(dataLen) <= |mem|
    && msg == SetLen(s, n + LenField(dataLen) as nat)[..n] + (Bytes16(LenField(dataLen)) + Bytes16(NFQA_PAYLOAD)) + mem[..Align(dataLen)]
  }

  lemma VectorParts(s: seq<byte>, n: nat, mem: seq<byte>, dataLen: nat, msg: seq<byte>)
    requires ThreeVectors(s, n, mem, dataLen, msg) && n <= VERDICT_ROOM
    ensures n % 4 == 0 && NFGEN_LEN <= n <= |s| && Align(dataLen) <= |mem|
    ensures |msg| == n + ATTR_HDRLEN + Align(dataLen) && MsgLen(msg) as nat == n + LenField(dataLen) as nat
    ensures msg[4..n] == s[4..n]
    ensures msg[NFGEN_LEN..] == s[NFGEN_LEN..n] + (Bytes16(LenField(dataLen)) + Bytes16(NFQA_PAYLOAD) + mem[..Align(dataLen)])
  {
    var s' := SetLen(s, n + LenField(dataLen) as nat);
    assert s'[4..n] == s[4..n] && s'[NFGEN_LEN..n] == s[NFGEN_LEN..n] by {
      SameSlice(s', s, 4, 4, n);
      SameSlice(s', s, 4, NFGEN_LEN, n);
    }
    assert msg[..n] == s'[..n];
    assert msg[4..n] == s'[..n][4..] == s'[4..n];
    assert msg[NFGEN_LEN..n] == s'[..n][NFGEN_LEN..] == s'[NFGEN_LEN..n];
    assert Le32(msg, 0) == Le32(s', 0) by {
      assert msg[..n][..4] == s'[..n][..4];
    }
  }

  /** The gathered length is the aligned final nlmsg_len exactly when the payload's length
      field did not wrap. */
  lemma GatheredLength(n: nat, dataLen: nat)
    requires n % 4 == 0
    ensures (n + ATTR_HDRLEN + Align(dataLen)) % 4 == 0
    ensures n + ATTR_HDRLEN + Align(dataLen) == Align(n + LenField(dataLen) as nat) <==> ATTR_HDRLEN + dataLen < ATTR_LEN_LIMIT
  {
    var v := LenField(dataLen) as nat;
    AlignSum(n, v);
    AlignSum(ATTR_HDRLEN, dataLen);
    AlignSum(n + ATTR_HDRLEN, Align(dataLen));
    hide Align;
    if ATTR_HDRLEN + dataLen >= ATTR_LEN_LIMIT {
      WrapShortens(ATTR_HDRLEN + dataLen);
    }
  }

  /** What the 16-bit length field keeps of a longer length is shorter, aligned or not. */
  lemma WrapShortens(x: nat)
    requires x >= ATTR_LEN_LIMIT
    ensures Align(x % ATTR_LEN_LIMIT) < Align(x)
  {
    var q, v := x / ATTR_LEN_LIMIT, x % ATTR_LEN_LIMIT;
    assert x == ATTR_LEN_LIMIT * q + v && ATTR_LEN_LIMIT * q == 4 * (16384 * q);
    AlignSum(ATTR_LEN_LIMIT * q, v);
  }

  /** With 65532 bytes of payload the length field is zero: a receiver finds the other attributes
      and no payload, and the announced message is shorter than what was sent. */
  lemma LongVerdictLost(s: seq<byte>, n: nat, mem: seq<byte>, msg: seq<byte>, ts: seq<Attr>)
    requires ThreeVectors(s, n, mem, 65532, msg) && n <= VERDICT_ROOM
    requires EncodesAll(ts, s[NFGEN_LEN..n]) && FitAll(ts)
    ensures MsgLen(msg) as nat == n && |msg| == n + 65536 && ReadTrees(msg[NFGEN_LEN..MsgLen(msg)]) == ts
  {
    hide ThreeVectors, EncodesAll, FitAll, ReadTrees, MsgLen;
    VectorParts(s, n, mem, 65532, msg);
    assert LenField(65532) == 0;
    assert msg[NFGEN_LEN..n] == msg[4..n][NFGEN_LEN - 4..] == s[4..n][NFGEN_LEN - 4..] == s[NFGEN_LEN..n];
    ReadEncoded(ts, s[NFGEN_LEN..n]);
  }

  lemma PayloadSizes(data: seq<byte>)
    requires ATTR_HDRLEN + |data| < ATTR_LEN_LIMIT
    ensures var t := Leaf(NFQA_PAYLOAD, data);
            LenField(|data|) as nat == ATTR_HDRLEN + |data| && Size(t) == ATTR_HDRLEN + Align(|data|) && Fits(t)
  {
  }

  lemma GatheredReads(s: seq<byte>, n: nat, mem: seq<byte>, dataLen: nat, msg: seq<byte>, ts: seq<Attr>, qid: u16, msgType: byte, serial: u32)
    requires ThreeVectors(s, n, mem, dataLen, msg) && n <= VERDICT_ROOM && ATTR_HDRLEN + dataLen < ATTR_LEN_LIMIT
    requires EncodesAll(ts, s[NFGEN_LEN..n]) && FitAll(ts)
    requires s[4..NFGEN_LEN] == HeaderBytes(QueueHeader(qid, msgType, serial), NFGEN_LEN)[4..]
    ensures Carries(msg, qid, msgType, serial, ts + [Leaf(NFQA_PAYLOAD, mem[..dataLen])])
  {
    hide Encodes, EncodesAll, ReadTrees, FitAll, MsgLen, HeaderBytes, ThreeVectors, LenField, Align, Size;
    VectorParts(s, n, mem, dataLen, msg);
    PayloadSizes(mem[..dataLen]);
    var t := Leaf(NFQA_PAYLOAD, mem[..dataLen]);
    var p := Bytes16(LenField(dataLen)) + Bytes16(NFQA_PAYLOAD) + mem[..Align(dataLen)];
    VerdictHeader(s, n, msg, qid, msgType, serial);
    assert p[..ATTR_HDRLEN + dataLen] == Bytes16(LenField(dataLen)) + Bytes16(NFQA_PAYLOAD) + mem[..dataLen];
    LeafEncoded(NFQA_PAYLOAD, mem[..dataLen], p);
    EncodesSize(ts, s[NFGEN_LEN..n]);
    EncodesAppend(ts, s[NFGEN_LEN..n], t, p);
    FitAppend(ts, t);
    ReadEncoded(ts + [t], msg[NFGEN_LEN..]);
    ClippedReads(ts, t, msg[NFGEN_LEN..], MsgLen(msg) as nat - NFGEN_LEN);
    assert msg[NFGEN_LEN..MsgLen(msg)] == msg[NFGEN_LEN..][..MsgLen(msg) as nat - NFGEN_LEN];
  }

  lemma PayloadSent(s: seq<byte>, n: nat, mem: seq<byte>, dataLen: nat, msg: seq<byte>, ts: seq<Attr>, qid: u16, msgType: byte, serial: u32)
    requires ThreeVectors(s, n, mem, dataLen, msg) && n <= VERDICT_ROOM
    requires EncodesAll(ts, s[NFGEN_LEN..n]) && FitAll(ts)
    requires s[4..NFGEN_LEN] == HeaderBytes(QueueHeader(qid, msgType, serial), NFGEN_LEN)[4..]
    ensures |msg| >= NFGEN_LEN && |msg| % 4 == 0
    ensures |msg| == Align(MsgLen(msg)) <==> ATTR_HDRLEN + dataLen < ATTR_LEN_LIMIT
    ensures Carries(msg, qid, msgType, serial, ts + [Leaf(NFQA_PAYLOAD, mem[..dataLen])]) <==> ATTR_HDRLEN + dataLen < ATTR_LEN_LIMIT
    ensures dataLen == 65532 ==>
              |msg| == MsgLen(msg) as nat + 65536 && MsgLen(msg) as nat >= NFGEN_LEN && ReadTrees(msg[NFGEN_LEN..MsgLen(msg)]) == ts
  {
    hide ThreeVectors, EncodesAll, FitAll, HeaderBytes, Carries, MsgLen, LenField, Align, ReadTrees;
    VectorParts(s, n, mem, dataLen, msg);
    GatheredLength(n, dataLen);
    if ATTR_HDRLEN + dataLen < ATTR_LEN_LIMIT {
      GatheredReads(s, n, mem, dataLen, msg, ts, qid, msgType, serial);
    } else {
      WrappedUnread(s, n, mem, dataLen, msg, ts, qid, msgType, serial);
      if dataLen == 65532 {
        LongVerdictLost(s, n, mem, msg, ts);
      }
    }
  }

  /** Once the length field has wrapped, the announced bytes are too few for the attributes. */
  lemma WrappedUnread(s: seq<byte>, n: nat, mem: seq<byte>, dataLen: nat, msg: seq<byte>, ts: seq<Attr>, qid: u16, msgType: byte, serial: u32)
    requires ThreeVectors(s, n, mem, dataLen, msg) && n <= VERDICT_ROOM && ATTR_HDRLEN + dataLen >= ATTR_LEN_LIMIT
    requires EncodesAll(ts, s[NFGEN_LEN..n])
    ensures !Carries(msg, qid, msgType, serial, ts + [Leaf(NFQA_PAYLOAD, mem[..dataLen])])
  {
    hide ThreeVectors, EncodesAll, ReadTrees, MsgLen, LenField, Align, Size, SizeAll;
    VectorParts(s, n, mem, dataLen, msg);
    var t, v := Leaf(NFQA_PAYLOAD, mem[..dataLen]), LenField(dataLen) as nat;
    var x := msg[NFGEN_LEN..n + v];
    ReadSize(x);
    AlignSum(n - NFGEN_LEN, v);
    AlignSum(n, v);
    GatheredLength(n, dataLen);
    EncodesSize(ts, s[NFGEN_LEN..n]);
    SizeAppend(ts, t);
    LeafSize(t);
    assert SizeAll(ReadTrees(x)) < SizeAll(ts + [t]);
  }

  lemma LeafSize(t: Attr)
    requires t.Leaf?
    ensures Size(t) == ATTR_HDRLEN + Align(|t.data|)
  {
    AlignSum(ATTR_HDRLEN, |t.data|);
  }

  /** A reader that stops inside the padding of the last leaf reads the same attributes. */
  lemma {:induction false} ClippedReads(ts: seq<Attr>, t: Attr, s: seq<byte>, m: nat)
    requires t.Leaf? && EncodesAll(ts + [t], s) && FitAll(ts + [t])
    requires SizeAll(ts) + ATTR_HDRLEN + |t.data| <= m <= |s|
    ensures ReadTrees(s[..m]) == ts + [t]
    decreases |ts|
  {
    hide Encodes, EncodesAll, ReadTrees, ReadTree, FitAll, Fits, Size, SizeAll, AttrOk;
    EncodedParts(ts + [t], s);
    HeadParts(ts + [t]);
    if ts == [] {
      NoSize();
      assert ts + [t] == [t];
      ClippedLeaf(t, s, m);
    } else {
      var n, w := Size(ts[0]), s[..m];
      assert (ts + [t])[0] == ts[0] && (ts + [t])[1..] == ts[1..] + [t];
      HeadParts(ts);
      assert w[..n] == s[..n] && w[n..] == s[n..][..m - n];
      ReadEncodedHead(ts[0], w);
      ReadTreesCons(w);
      ClippedReads(ts[1..], t, s[n..], m - n);
    }
  }

  lemma EncodedParts(ts: seq<Attr>, s: seq<byte>)
    requires ts != [] && EncodesAll(ts, s)
    ensures |s| >= Size(ts[0]) && Encodes(ts[0], s[..Size(ts[0])]) && EncodesAll(ts[1..], s[Size(ts[0])..])
  {
  }

  lemma ClippedLeaf(t: Attr, s: seq<byte>, m: nat)
    requires t.Leaf? && EncodesAll([t], s) && Fits(t) && ATTR_HDRLEN + |t.data| <= m <= |s|
    ensures ReadTrees(s[..m]) == [t]
  {
    var w, n := s[..m], ATTR_HDRLEN + |t.data|;
    assert s[..Size(t)] == s by { EncodesSize([t], s); HeadParts([t]); }
    HeaderOfPrefix(s, m);
    assert AttrOk(w) && RawAt(w, 0, m).payload == w[ATTR_HDRLEN..n] == s[ATTR_HDRLEN..n] == t.data;
    ReadTreesCons(w);
    assert w[Stride(w)..] == [];
  }
}
