/** The filter's packet callback, from a received packet message to the verdict that is sent for
    it: the receive path, the queue handles, the rule list and the verdict message together. */
module PacketFilter {
  import opened Wrappers
  import opened Bytes
  import opened AttrWire
  import opened AttrParser
  import opened Messages
  import opened Receive
  import opened QueueHandles
  import opened VerdictMessage
  import opened Rules
  import opened InternetChecksum
  import opened TcpMangle
  import opened Builder

  const NF_DROP: u32 := 0
  const NF_ACCEPT: u32 := 1
  const NFQNL_MSG_VERDICT: byte := 1

  /** What the callback works with: the switch and the rules, the time bits, the netlink handle's
      sequence counter, what sending answers, and what has been sent. */
  datatype FilterState = FilterState(
    enabled: bool, rules: seq<Rule>, now: nat, track: bool, serial: u32, clock: u32, sendRet: int, sent: seq<seq<byte>>)
  {
    /** Judge::judge */
    predicate Accepts(p: Packet) { !enabled || Rules.Accepts(rules, p, now) }

    function Verdict(p: Packet): u32 { if Accepts(p) then NF_ACCEPT else NF_DROP }

    /** nfq_set_verdict without a payload. */
    function Send(qid: u16, id: u32, verdict: u32): FilterState {
      var next := if track then NextSeq(serial, clock) else serial;
      this.(serial := next, sent := sent + [VerdictBytes(qid, id, verdict, NFQNL_MSG_VERDICT, if track then next else 0)])
    }
  }

  // ---------------------------------------------------------------- the packet

  /** The packet holds everything that the extractor reads. */
  predicate Whole(p: seq<byte>) {
    && |p| >= 20
    && (p[9] == IPPROTO_TCP || p[9] == IPPROTO_UDP ==> IhlBytes(p) + 4 <= |p|)
    && (p[9] == IPPROTO_ICMP ==> IhlBytes(p) < |p|)
  }

  /** PacketExtractor over the bytes of a packet. */
  function PacketOf(p: seq<byte>): Packet
    requires Whole(p)
  {
    var ports := p[9] == IPPROTO_TCP || p[9] == IPPROTO_UDP;
    Packet(p[9], Le32(p, 12), Le32(p, 16),
      if ports then Le16(p, IhlBytes(p)) else 0,
      if ports then Le16(p, IhlBytes(p) + 2) else 0,
      if p[9] == IPPROTO_ICMP then p[IhlBytes(p)] else 0)
  }

  // ---------------------------------------------------------------- the callback

  /** The attribute table of a packet message that the kernel sends: a packet header, if there is
      one, holds the id, and a payload holds a packet. */
  predicate Sound(tb: Table) {
    && (Slot(tb, NFQA_PACKET_HDR - 1).Some? ==> |Slot(tb, NFQA_PACKET_HDR - 1).value.payload| >= 4)
    && (Slot(tb, NFQA_PAYLOAD - 1).Some? ==> Whole(Slot(tb, NFQA_PAYLOAD - 1).value.payload))
  }

  /** What onPacket does for a queue: nothing without a header or a payload, else one verdict.
      Tables that are not sound are never passed to it; for them nothing is claimed. */
  function Answer(qid: u16, tb: Table, st: FilterState): (int, FilterState) {
    match (Slot(tb, NFQA_PACKET_HDR - 1), Slot(tb, NFQA_PAYLOAD - 1))
    case (Some(hdr), Some(data)) =>
      if !Sound(tb) then (1, st)
      else (st.sendRet, st.Send(qid, Be32(hdr.payload, 0), st.Verdict(PacketOf(data.payload))))
    case _ => (1, st)
  }

  /** onPacket, with the rule list and the message builder that it calls. */
  method OnPacket(qid: u16, tb: Table, st: FilterState) returns (ret: int, st': FilterState)
    requires Sound(tb)
    ensures (ret, st') == Answer(qid, tb, st)
  {
    var ph := Slot(tb, NFQA_PACKET_HDR - 1);
    if ph.None? {
      return 1, st;
    }
    var id := Be32(ph.value.payload, 0);
    var pdata := Slot(tb, NFQA_PAYLOAD - 1);
    if pdata.None? {
      return 1, st;
    }
    var accept := JudgePacket(st, PacketOf(pdata.value.payload));
    var msg, serial := SetVerdict(qid, id, if accept then NF_ACCEPT else NF_DROP, 0, false, 0, [], NFQNL_MSG_VERDICT, st.track, st.serial, st.clock);
    ret, st' := st.sendRet, st.(serial := serial, sent := st.sent + [msg]);
  }

  method JudgePacket(st: FilterState, p: Packet) returns (accept: bool)
    ensures accept == st.Accepts(p)
  {
    if !st.enabled {
      return true;
    }
    var rules := new RuleCollection();
    rules.rules := st.rules;
    accept := rules.Check(p, st.now);
  }

  /** The callback that start() passes to nfq_create_queue. */
  function Callback(qid: u16): (seq<byte>, Table, FilterState) -> (int, FilterState) {
    (m, tb, st) => Answer(qid, tb, st)
  }

  // ---------------------------------------------------------------- main results

  /** The attribute of a packet message that the receive path puts into the slot of a type. */
  function AttrOf(m: seq<byte>, typ: int): Option<RawAttr>
    requires |m| >= NFGEN_LEN
  {
    Last(Attrs(m, NFGEN_LEN, |m|), NFA_TYPES, typ)
  }

  /** A packet message for a queue, with an id and a packet. */
  predicate PacketMessage(m: seq<byte>, qid: u16) {
    && |m| >= NFGEN_LEN && SubsysId(m) == NFNL_SUBSYS_QUEUE && MsgType(m) == NFQNL_MSG_PACKET && Be16(m, 18) == qid
    && AttrOf(m, NFQA_PACKET_HDR).Some? && |AttrOf(m, NFQA_PACKET_HDR).value.payload| >= 4
    && AttrOf(m, NFQA_PAYLOAD).Some? && Whole(AttrOf(m, NFQA_PAYLOAD).value.payload)
  }

  /** `v` is a verdict message for the queue that carries the id of packet message `m` and accepts
      exactly when filtering is off or the rules accept the packet in its payload. */
  ghost predicate Answers(v: seq<byte>, m: seq<byte>, qid: u16, st: FilterState)
    requires PacketMessage(m, qid)
  {
    var id, p := Be32(AttrOf(m, NFQA_PACKET_HDR).value.payload, 0), PacketOf(AttrOf(m, NFQA_PAYLOAD).value.payload);
    |v| >= NFGEN_LEN && Carries(v, qid, NFQNL_MSG_VERDICT, Le32(v, 8), VerdictAttrs(id, if st.Accepts(p) then NF_ACCEPT else NF_DROP, false, 0, []))
  }

  /** The receive path hands packet messages to __nfq_rcv_pkt, after a run of creations and
      destructions in which call `j` made the queue with the filter's callback. */
  ghost predicate Listening(h: Handle<FilterState>, ops: seq<QueueOp<FilterState>>, qid: u16, j: int) {
    && |h| == NFNL_MAX_SUBSYS + 1 && |h[NFNL_SUBSYS_QUEUE]| > NFQNL_MSG_PACKET
    && h[NFNL_SUBSYS_QUEUE][NFQNL_MSG_PACKET] == NfnlCallback(NFQA_MAX, Some(RcvCallback(StepsLive(map[], ops))))
    && MadeBy(ops, qid, j) && ops[j].cb == Some(Callback(qid))
  }

  /** The states differ in the counter and in what was sent only. */
  predicate SameFilter(a: FilterState, b: FilterState) {
    b == a.(serial := b.serial, sent := b.sent)
  }

  lemma CarriedSerial(v: seq<byte>, qid: u16, serial: u32, ts: seq<Attr>)
    requires Carries(v, qid, NFQNL_MSG_VERDICT, serial, ts)
    ensures |v| >= NFGEN_LEN && Le32(v, 8) == serial
  {
  }

  /** One packet message leads to exactly one verdict message, which answers it. */
  lemma PacketAnswered(h: Handle<FilterState>, ops: seq<QueueOp<FilterState>>, qid: u16, j: int, m: seq<byte>, st: FilterState)
    requires Listening(h, ops, qid, j) && PacketMessage(m, qid)
    ensures var (ret, st') := Handled(h, m, st);
            && ret == st.sendRet && SameFilter(st, st')
            && |st'.sent| == |st.sent| + 1 && st'.sent[..|st.sent|] == st.sent
            && Answers(st'.sent[|st.sent|], m, qid, st)
            && Le32(st'.sent[|st.sent|], 8) == (if st.track then st'.serial else 0)
            && st'.serial == (if !st.track then st.serial else if st.serial as int == 0xffff_ffff then st.clock else st.serial + 1)
  {
    hide Carries, VerdictAttrs, VerdictBytes, Rules.Accepts, Attrs, Last, Handled;
    PacketReachesQueue(h, ops, m, st);
    var list := Attrs(m, NFGEN_LEN, |m|);
    var tb := TableOf(list, NFQA_MAX);
    TableOfIs(list, NFQA_MAX);
    assert Slot(tb, NFQA_PACKET_HDR - 1) == AttrOf(m, NFQA_PACKET_HDR) && Slot(tb, NFQA_PAYLOAD - 1) == AttrOf(m, NFQA_PAYLOAD);
    assert MadeBy(ops, Be16(m, 18), j);
    assert Handled(h, m, st) == Callback(qid)(m, tb, st) == Answer(qid, tb, st);
    var id, p := Be32(AttrOf(m, NFQA_PACKET_HDR).value.payload, 0), PacketOf(AttrOf(m, NFQA_PAYLOAD).value.payload);
    var serial := if st.track then NextSeq(st.serial, st.clock) else 0;
    VerdictCarried(qid, id, st.Verdict(p), NFQNL_MSG_VERDICT, serial);
    CarriedSerial(VerdictBytes(qid, id, st.Verdict(p), NFQNL_MSG_VERDICT, serial), qid, serial, VerdictAttrs(id, st.Verdict(p), false, 0, []));
  }

  /** A packet message without a header or a payload leads to no verdict. */
  lemma PacketIgnored(h: Handle<FilterState>, ops: seq<QueueOp<FilterState>>, qid: u16, j: int, m: seq<byte>, st: FilterState)
    requires Listening(h, ops, qid, j)
    requires |m| >= NFGEN_LEN && SubsysId(m) == NFNL_SUBSYS_QUEUE && MsgType(m) == NFQNL_MSG_PACKET && Be16(m, 18) == qid
    requires AttrOf(m, NFQA_PACKET_HDR).None? || AttrOf(m, NFQA_PAYLOAD).None?
    ensures Handled(h, m, st) == (1, st)
  {
    hide Attrs, Last, Handled;
    PacketReachesQueue(h, ops, m, st);
    var list := Attrs(m, NFGEN_LEN, |m|);
    TableOfIs(list, NFQA_MAX);
    assert Slot(TableOf(list, NFQA_MAX), NFQA_PACKET_HDR - 1) == AttrOf(m, NFQA_PACKET_HDR);
    assert Slot(TableOf(list, NFQA_MAX), NFQA_PAYLOAD - 1) == AttrOf(m, NFQA_PAYLOAD);
    assert MadeBy(ops, Be16(m, 18), j);
  }

  /** A buffer of packet messages is answered message by message, in order, as long as sending
      works: one verdict each, nothing in between. */
  lemma {:induction false} AllAnswered(h: Handle<FilterState>, ops: seq<QueueOp<FilterState>>, qid: u16, j: int, ms: seq<RawMsg>, st: FilterState)
    requires Listening(h, ops, qid, j) && st.sendRet >= 0
    requires forall m <- ms :: m.Valid() && PacketMessage(m.bytes, qid)
    ensures var (ok, st') := HandledAll(h, ms, st);
            ok && SameFilter(st, st') && AnsweredInOrder(ms, qid, st, st'.sent)
    decreases |ms|
  {
    if ms != [] {
      hide PacketMessage, Answers, Handled, AnsweredInOrder;
      assert ms[0].Valid() && PacketMessage(ms[0].bytes, qid);
      PacketAnswered(h, ops, qid, j, ms[0].bytes, st);
      var (ret, st1) := Handled(h, ms[0].bytes, st);
      AllAnswered(h, ops, qid, j, ms[1..], st1);
      AnsweredCons(ms, qid, st, st1, HandledAll(h, ms[1..], st1).1.sent);
    }
  }

  lemma AnsweredCons(ms: seq<RawMsg>, qid: u16, st: FilterState, st1: FilterState, sent: seq<seq<byte>>)
    requires ms != [] && PacketMessage(ms[0].bytes, qid) && SameFilter(st, st1)
    requires |st1.sent| == |st.sent| + 1 && st1.sent[..|st.sent|] == st.sent
    requires Answers(st1.sent[|st.sent|], ms[0].bytes, qid, st) && AnsweredInOrder(ms[1..], qid, st1, sent)
    ensures AnsweredInOrder(ms, qid, st, sent)
  {
    hide PacketMessage, Answers;
    assert sent[|st.sent|] == sent[..|st1.sent|][|st.sent|];
    assert sent[..|st.sent|] == sent[..|st1.sent|][..|st.sent|];
    forall i | 0 <= i < |ms|
      ensures PacketMessage(ms[i].bytes, qid) && Answers(sent[|st.sent| + i], ms[i].bytes, qid, st)
    {
      if i == 0 {
        assert |st.sent| + i == |st.sent|;
      } else {
        assert ms[i] == ms[1..][i - 1];
        SameAnswers(sent[|st1.sent| + (i - 1)], ms[i].bytes, qid, st, st1);
      }
    }
  }

  /** Nothing that a verdict depends on has changed. */
  lemma SameAnswers(v: seq<byte>, m: seq<byte>, qid: u16, st: FilterState, st1: FilterState)
    requires PacketMessage(m, qid) && SameFilter(st, st1)
    ensures Answers(v, m, qid, st1) <==> Answers(v, m, qid, st)
  {
  }

  /** nfq_handle_packet on a received buffer whose messages are packet messages for the queue. */
  method HandleBuffer(h: Handle<FilterState>, ghost ops: seq<QueueOp<FilterState>>, ghost qid: u16, ghost j: int, buf: array<byte>, total: nat, st: FilterState, beyond: u16)
      returns (ret: int, st': FilterState)
    requires total <= buf.Length && Listening(h, ops, qid, j) && st.sendRet >= 0
    requires forall m <- Msgs(buf[..], 0, total) :: PacketMessage(m.bytes, qid)
    ensures ret == if Left(buf[..], 0, total) < NLMSG_HDRLEN then 0 else CB_ERROR
    ensures SameFilter(st, st') && AnsweredInOrder(Msgs(buf[..], 0, total), qid, st, st'.sent)
  {
    hide Msgs, Left, HandledAll, PacketMessage, AnsweredInOrder;
    AllAnswered(h, ops, qid, j, Msgs(buf[..], 0, total), st);
    ret, st' := HandlePacket(h, buf, total, st, beyond);
  }

  /** `sent` is what had been sent and then one answer to each message. */
  ghost predicate AnsweredInOrder(ms: seq<RawMsg>, qid: u16, st: FilterState, sent: seq<seq<byte>>) {
    && |sent| == |st.sent| + |ms| && sent[..|st.sent|] == st.sent
    && forall i :: 0 <= i < |ms| ==> PacketMessage(ms[i].bytes, qid) && Answers(sent[|st.sent| + i], ms[i].bytes, qid, st)
  }
  // ---------------------------------------------------------------- packets and messages laid out

  /** An IPv4 packet, field by field: a header of `words` 32-bit words with its options, then the
      ports of TCP and UDP or the type of an ICMP message, and the rest. */
  datatype PacketFields = PacketFields(
    words: nat, upToTtl: seq<byte>, protocol: byte, check: seq<byte>, src: u32, dest: u32, options: seq<byte>,
    srcPort: u16, destPort: u16, icmpType: byte, rest: seq<byte>)
  {
    predicate Valid() {
      5 <= words < 16 && |upToTtl| == 8 && |check| == 2 && |options| == 4 * (words - 5)
    }

    predicate HasPorts() { protocol as int == 6 || protocol as int == 17 }

    function Head(): (h: seq<byte>)
      requires Valid()
      ensures |h| == 20
    {
      [0x40 + words] + upToTtl + [protocol] + check + (Bytes32(src) + Bytes32(dest))
    }

    function Transport(): seq<byte> {
      if HasPorts() then Net16(srcPort) + Net16(destPort) else if protocol as int == 1 then [icmpType] else []
    }

    function Layout(): seq<byte>
      requires Valid()
    {
      Head() + options + (Transport() + rest)
    }
  }

  lemma HeadLaid(f: PacketFields)
    requires f.Valid()
    ensures var h := f.Head(); IhlBytes(h) == 4 * f.words && h[9] == f.protocol && Le32(h, 12) == f.src && Le32(h, 16) == f.dest
  {
    var h := f.Head();
    var front := [0x40 + f.words] + f.upToTtl + [f.protocol] + f.check;
    assert h == front + Bytes32(f.src) + Bytes32(f.dest);
    FieldAt32(front, f.src, Bytes32(f.dest));
    assert h == (front + Bytes32(f.src)) + Bytes32(f.dest) + [];
    FieldAt32(front + Bytes32(f.src), f.dest, []);
  }

  /** The extractor reads what was laid out. */
  lemma PacketLaid(f: PacketFields)
    requires f.Valid()
    ensures Whole(f.Layout())
    ensures var p := PacketOf(f.Layout());
            && p.protocol == f.protocol && p.srcIp == f.src && p.destIp == f.dest
            && (f.HasPorts() ==> Swap16(p.srcPort) == f.srcPort && Swap16(p.destPort) == f.destPort)
            && (f.protocol as int == 1 ==> p.icmpType == f.icmpType)
            && (!f.HasPorts() ==> p.srcPort as int == 0 && p.destPort as int == 0) && (f.protocol as int != 1 ==> p.icmpType as int == 0)
  {
    var p, h, before := f.Layout(), f.Head(), f.Head() + f.options;
    HeadLaid(f);
    hide Le32, Le16, Swap16;
    assert p == h + (f.options + (f.Transport() + f.rest)) == before + (f.Transport() + f.rest);
    PrefixFields(h, f.options + (f.Transport() + f.rest), 12);
    PrefixFields(h, f.options + (f.Transport() + f.rest), 16);
    assert p[0] == h[0] && p[9] == h[9] && |before| == 4 * f.words;
    if f.HasPorts() {
      assert p == before + Net16(f.srcPort) + (Net16(f.destPort) + f.rest);
      NetFieldAt16(before, f.srcPort, Net16(f.destPort) + f.rest);
      assert p == (before + Net16(f.srcPort)) + Net16(f.destPort) + f.rest;
      NetFieldAt16(before + Net16(f.srcPort), f.destPort, f.rest);
      SwapLoad(p, |before|);
      SwapLoad(p, |before| + 2);
    } else if f.protocol as int == 1 {
      assert p[|before|] == f.icmpType;
    }
  }

  lemma SwapLoad(s: seq<byte>, i: nat)
    requires i + 2 <= |s|
    ensures Swap16(Le16(s, i)) == Be16(s, i)
  {
  }

  /** What surrounds a packet in the message that the kernel sends. */
  datatype MsgFields = MsgFields(nlFlags: u16, serial: u32, port: u32, family: byte, hook: seq<byte>, filler: byte, padding: seq<byte>) {
    predicate Valid() { |hook| == 3 && |padding| < 4 }
  }

  /** A packet message, field by field: both headers, the packet header attribute with the id, and
      the payload attribute. */
  function MessageHead(len: u32, f: MsgFields, qid: u16): (h: seq<byte>)
    ensures |h| == 20
  {
    Bytes32(len) + [0, 3] + Bytes16(f.nlFlags) + Bytes32(f.serial) + Bytes32(f.port) + [f.family, 0] + Net16(qid)
  }

  function MessageBytes(f: MsgFields, qid: u16, id: u32, payload: seq<byte>): (m: seq<byte>)
    requires f.Valid() && |payload| <= 65531
    ensures |m| == 36 + |payload| + |f.padding|
  {
    MessageHead(36 + |payload| + |f.padding|, f, qid)
    + ([11, 0, 1, 0] + (Net32(id) + f.hook) + [f.filler])
    + (Bytes16(4 + |payload|) + [10, 0] + payload + f.padding)
  }

  lemma MessageHeadLaid(len: u32, f: MsgFields, qid: u16)
    ensures var h := MessageHead(len, f, qid); Le32(h, 0) == len && Le16(h, 4) as int == 0x300 && Be16(h, 18) == qid
  {
    var h := MessageHead(len, f, qid);
    assert Le32(h, 0) == Le32(Bytes32(len), 0) && Be16(h, 18) == Be16(Net16(qid), 0);
  }

  /** The two attributes of a laid-out message. */
  lemma MessageAttrs(f: MsgFields, qid: u16, id: u32, payload: seq<byte>)
    requires f.Valid() && |payload| <= 65531
    ensures var m := MessageBytes(f, qid, id, payload);
            Attrs(m, 20, |m|) == [RawAttr(20, 1, Net32(id) + f.hook), RawAttr(32, 10, payload)]
  {
    var m := MessageBytes(f, qid, id, payload);
    var h, hdr := MessageHead(36 + |payload| + |f.padding|, f, qid), [11, 0, 1, 0] + (Net32(id) + f.hook) + [f.filler];
    var size := 4 + |payload|;
    hide MessageHead, Attrs;
    assert m[20] == 11 && m[21] == 0 && m[22] == 1 && m[23] == 0;
    assert m == (h + hdr) + Bytes16(size) + ([10, 0] + payload + f.padding);
    FieldAt16(h + hdr, size, [10, 0] + payload + f.padding);
    assert m[34] == 10 && m[35] == 0;
    assert m[24..31] == Net32(id) + f.hook && m[36..36 + |payload|] == payload;
    assert Le16(m, 20) as int == 11 && Le16(m, 22) as int == 1 && Le16(m, 34) as int == 10;
    AttrsCons(m, 20, |m|);
    AttrsCons(m, 32, |m|);
    AttrsCons(m, 32 + Align(size), |m|);
  }

  lemma LastOfTwo(a: RawAttr, b: RawAttr)
    requires a.field as int == 1 && b.field as int == 10
    ensures Last([a, b], NFA_TYPES, 1) == Some(a) && Last([a, b], NFA_TYPES, 10) == Some(b)
  {
    assert [a, b][..1] == [a] && [a][..0] == [];
    assert Last([a], NFA_TYPES, 1) == Some(a);
  }

  lemma MessageLaid(f: MsgFields, qid: u16, id: u32, packet: PacketFields)
    requires f.Valid() && packet.Valid() && |packet.Layout()| <= 65531
    ensures var m := MessageBytes(f, qid, id, packet.Layout());
            && PacketMessage(m, qid) && Msgs(m, 0, |m|) == [RawMsg(0, m)] && Left(m, 0, |m|) == 0
            && Be32(AttrOf(m, NFQA_PACKET_HDR).value.payload, 0) == id
            && AttrOf(m, NFQA_PAYLOAD).value.payload == packet.Layout()
  {
    var payload := packet.Layout();
    var m, len := MessageBytes(f, qid, id, payload), 36 + |payload| + |f.padding|;
    var a, b := RawAttr(20, 1, Net32(id) + f.hook), RawAttr(32, 10, payload);
    MessageAttrs(f, qid, id, payload);
    MessageHeadLaid(len, f, qid);
    var h := MessageHead(len, f, qid);
    assert m == h + m[20..];
    PrefixFields(h, m[20..], 0);
    PrefixFields(h, m[20..], 4);
    PrefixFields(h, m[20..], 18);
    PacketLaid(packet);
    hide Attrs, MessageHead, MessageBytes, Msgs, Whole, Last, Le32, Le16, Be16;
    LastOfTwo(a, b);
    assert Be32(Net32(id) + f.hook, 0) == Be32(Net32(id), 0);
    OneMsg(m);
  }

  /** A received buffer with one laid-out packet message, when the only rule is a black one:
      exactly one verdict is sent, with the packet's id, and it is drop (0) exactly when filtering
      is on and the rule matches the packet that was laid out, else accept (1). */
  method FilterLaid(h: Handle<FilterState>, ghost ops: seq<QueueOp<FilterState>>, qid: u16, ghost j: int, buf: array<byte>, total: nat, st: FilterState, beyond: u16,
      ghost f: MsgFields, ghost id: u32, ghost packet: PacketFields, ghost r: Rule) returns (ret: int, st': FilterState)
    requires total <= buf.Length && Listening(h, ops, qid, j) && st.sendRet >= 0
    requires f.Valid() && packet.Valid() && |packet.Layout()| <= 65531 && buf[..total] == MessageBytes(f, qid, id, packet.Layout())
    requires st.rules == [r] && r.typ as int == 0
    ensures ret == 0 && |st'.sent| == |st.sent| + 1 && st'.sent[..|st.sent|] == st.sent
    ensures Decides(st'.sent[|st.sent|], qid, id, !st.enabled || !Matches(r, PacketOf(packet.Layout()), st.now))
  {
    ghost var m := buf[..total];
    MessageLaid(f, qid, id, packet);
    PrefixMsgs(buf[..], 0, total);
    hide Listening, PacketMessage, MessageBytes, Matches, Msgs, Left, Answers;
    ret, st' := HandleBuffer(h, ops, qid, j, buf, total, st, beyond);
    OneAnswer(m, qid, id, packet, st, st'.sent, r);
  }

  /** A verdict message for a queue with an id: accept is 1 and drop is 0. */
  ghost predicate Decides(v: seq<byte>, qid: u16, id: u32, accept: bool) {
    && |v| >= 20 && Le16(v, 4) as int == 0x301 && Be16(v, 18) == qid
    && ReadTrees(v[20..]) == [Leaf(2, Net32(if accept then 1 else 0) + Net32(id))]
  }

  lemma OneAnswer(m: seq<byte>, qid: u16, id: u32, packet: PacketFields, st: FilterState, sent: seq<seq<byte>>, r: Rule)
    requires packet.Valid() && PacketMessage(m, qid) && AnsweredInOrder([RawMsg(0, m)], qid, st, sent)
    requires Be32(AttrOf(m, NFQA_PACKET_HDR).value.payload, 0) == id && AttrOf(m, NFQA_PAYLOAD).value.payload == packet.Layout()
    requires st.rules == [r] && r.typ as int == 0
    ensures |sent| == |st.sent| + 1 && sent[..|st.sent|] == st.sent
    ensures Decides(sent[|st.sent|], qid, id, !st.enabled || !Matches(r, PacketOf(packet.Layout()), st.now))
  {
    hide PacketMessage, Carries, Rules.Accepts, Matches, AttrOf, VerdictAttrs;
    var v, p := sent[|st.sent|], PacketOf(packet.Layout());
    assert [RawMsg(0, m)][0].bytes == m;
    assert |st.sent| + 0 == |st.sent| && Answers(sent[|st.sent| + 0], m, qid, st);
    OneBlackRule(r, p, st.now);
    CarriesDecides(v, qid, id, Le32(v, 8), st.Accepts(p));
  }

  lemma CarriesDecides(v: seq<byte>, qid: u16, id: u32, serial: u32, accept: bool)
    requires Carries(v, qid, NFQNL_MSG_VERDICT, serial, VerdictAttrs(id, if accept then NF_ACCEPT else NF_DROP, false, 0, []))
    ensures Decides(v, qid, id, accept)
  {
    hide ReadTrees, MsgLen;
    var verdict: u32 := if accept then 1 else 0;
    assert VerdictAttrs(id, verdict, false, 0, []) == [Leaf(2, Net32(verdict) + Net32(id))];
  }

  /** What a written rule blocks, in the fields of a packet that was laid out: its protocol, its
      addresses, for TCP and UDP its ports, at the hours and on the weekdays of its mask. */
  predicate Blocks(number: int, mask: Option<u32>, src: u32, dest: u32, srcPort: u16, destPort: u16, packet: PacketFields, hour: nat, wday: nat) {
    && (number == 0 || packet.protocol as int == number)
    && (src as int == 0 || packet.src == src) && (dest as int == 0 || packet.dest == dest)
    && (packet.protocol as int in [6, 17] ==>
          (srcPort as int == 0 || packet.srcPort == srcPort) && (destPort as int == 0 || packet.destPort == destPort))
    && (mask.Some? ==> Bit(mask.value, hour) || Bit(mask.value, 24 + wday))
  }

  lemma WrittenBlocks(c: Libc, protocol: Option<string>, number: int, mask: Option<u32>, src: u32, dest: u32, srcPort: u16, destPort: u16,
      r: Rule, packet: PacketFields, hour: nat, wday: nat)
    requires c.Inverse() && Names(protocol, number) && hour < 24 && wday < 7 && packet.Valid()
    requires Parsed(c, Obj(Written(c, protocol, None, mask, src, dest, srcPort, destPort))) == Some(r)
    ensures r.typ as int == 0 && Whole(packet.Layout())
    ensures Matches(r, PacketOf(packet.Layout()), TimePass(hour, wday)) <==> Blocks(number, mask, src, dest, srcPort, destPort, packet, hour, wday)
  {
    hide Parsed, Matches, Swap16, TimePass;
    PacketLaid(packet);
    WrittenRuleMatches(c, protocol, number, None, mask, src, dest, srcPort, destPort, PacketOf(packet.Layout()), hour, wday);
  }

  /** From the rule as it was written to the verdict as it is sent: with that rule alone, a
      laid-out packet is dropped exactly when filtering is on and the rule blocks it, field by
      field. */
  method FilterWritten(h: Handle<FilterState>, ghost ops: seq<QueueOp<FilterState>>, qid: u16, ghost j: int, buf: array<byte>, total: nat, st: FilterState, beyond: u16,
      ghost f: MsgFields, ghost id: u32, ghost packet: PacketFields, ghost c: Libc, ghost protocol: Option<string>, ghost number: int, ghost mask: Option<u32>,
      ghost src: u32, ghost dest: u32, ghost srcPort: u16, ghost destPort: u16, ghost hour: nat, ghost wday: nat, ghost r: Rule)
      returns (ret: int, st': FilterState)
    requires total <= buf.Length && Listening(h, ops, qid, j) && st.sendRet >= 0
    requires f.Valid() && packet.Valid() && |packet.Layout()| <= 65531 && buf[..total] == MessageBytes(f, qid, id, packet.Layout())
    requires c.Inverse() && Names(protocol, number) && hour < 24 && wday < 7
    requires Parsed(c, Obj(Written(c, protocol, None, mask, src, dest, srcPort, destPort))) == Some(r)
    requires st.rules == [r] && st.now == TimePass(hour, wday)
    ensures ret == 0 && |st'.sent| == |st.sent| + 1 && st'.sent[..|st.sent|] == st.sent
    ensures Decides(st'.sent[|st.sent|], qid, id, !st.enabled || !Blocks(number, mask, src, dest, srcPort, destPort, packet, hour, wday))
  {
    hide Listening, MessageBytes, Parsed, Matches, Decides, Blocks;
    WrittenBlocks(c, protocol, number, mask, src, dest, srcPort, destPort, r, packet, hour, wday);
    ret, st' := FilterLaid(h, ops, qid, j, buf, total, st, beyond, f, id, packet, r);
  }

  lemma NamedIcmpBlocks(c: Libc, name: string, r: Rule, packet: PacketFields, hour: nat, wday: nat)
    requires c.aton("0.0.0.0") == 0 && NUL !in name && hour < 24 && wday < 7 && packet.Valid()
    requires Parsed(c, Obj(map["protocol" := Json.Str("icmp." + name)])) == Some(r)
    ensures r.typ as int == 0 && Whole(packet.Layout())
    ensures Matches(r, PacketOf(packet.Layout()), TimePass(hour, wday)) <==>
            packet.protocol as int == 1 && (GetIcmpSubType(name) as int == 0 || packet.icmpType == GetIcmpSubType(name))
  {
    hide Parsed, ProtocolOf, TimePass, Meets, GetIcmpSubType;
    var o := map["protocol" := Json.Str("icmp." + name)];
    PacketLaid(packet);
    DefaultRule(c, o);
    assert "icmp." + name == "icmp" + "." + name;
    DottedName("icmp", name);
    EveryTime(hour, wday);
  }

  /** The same for a rule that names an ICMP message type. */
  method FilterNamedIcmp(h: Handle<FilterState>, ghost ops: seq<QueueOp<FilterState>>, qid: u16, ghost j: int, buf: array<byte>, total: nat, st: FilterState, beyond: u16,
      ghost f: MsgFields, ghost id: u32, ghost packet: PacketFields, ghost c: Libc, ghost name: string, ghost hour: nat, ghost wday: nat, ghost r: Rule)
      returns (ret: int, st': FilterState)
    requires total <= buf.Length && Listening(h, ops, qid, j) && st.sendRet >= 0
    requires f.Valid() && packet.Valid() && |packet.Layout()| <= 65531 && buf[..total] == MessageBytes(f, qid, id, packet.Layout())
    requires c.aton("0.0.0.0") == 0 && NUL !in name && hour < 24 && wday < 7
    requires Parsed(c, Obj(map["protocol" := Json.Str("icmp." + name)])) == Some(r)
    requires st.rules == [r] && st.now == TimePass(hour, wday)
    ensures ret == 0 && |st'.sent| == |st.sent| + 1 && st'.sent[..|st.sent|] == st.sent
    ensures Decides(st'.sent[|st.sent|], qid, id,
                    !st.enabled || !(packet.protocol as int == 1 && (GetIcmpSubType(name) as int == 0 || packet.icmpType == GetIcmpSubType(name))))
  {
    hide Listening, MessageBytes, Parsed, Matches, Decides;
    NamedIcmpBlocks(c, name, r, packet, hour, wday);
    ret, st' := FilterLaid(h, ops, qid, j, buf, total, st, beyond, f, id, packet, r);
  }
}
