/** The receive path of libnfnetlink: walking a received buffer message by message, filling an
    attribute table for each, and calling the callback registered for its subsystem and type. */
module Receive {
  import opened Wrappers
  import opened Bytes
  import opened AttrWire
  import opened AttrParser
  import opened Messages

  /** NFA_TYPE keeps 15 bits, one more than NLA_TYPE_MASK. */
  const NFA_TYPES: nat := 0x8000
  const NFNL_MAX_SUBSYS := 16
  const NFNL_SUBSYS_QUEUE: byte := 3
  const NFGEN_LEN: nat := 20
  const EINVAL := 22

  /** NFA_OK reads the length word even when fewer bytes remain; `beyond` is what it finds. */
  predicate NfaOk(s: seq<byte>, pos: nat, len: int, beyond: u16)
    requires len > 0 ==> pos + len <= |s|
  {
    && len > 0
    && var n := if len >= 2 then Le16(s, pos) else beyond;
       n as int >= ATTR_HDRLEN && n as int <= len
  }

  /** NFA_OK and mnl_attr_ok accept the same attributes, whatever lies beyond the buffer. */
  lemma NfaOkIff(s: seq<byte>, pos: nat, end: nat, beyond: u16)
    requires end <= |s|
    ensures NfaOk(s, pos, end - pos, beyond) <==> OkAt(s, pos, end)
  {
  }

  // ---------------------------------------------------------------- attribute tables

  /** The table of a list: slot k holds the last attribute of type k + 1. */
  ghost predicate NfnlTable(tb: Table, list: seq<RawAttr>, max: nat) {
    forall k {:trigger Slot(tb, k)} :: Slot(tb, k) == if 0 <= k < max then Last(list, NFA_TYPES, k + 1) else None
  }

  lemma EmptyTable(max: nat)
    ensures NfnlTable(map[], [], max)
  {
  }

  /** Reading one more attribute: unknown types and type 0 leave the table alone. */
  lemma TableStep(tb: Table, list: seq<RawAttr>, max: nat, a: RawAttr)
    requires NfnlTable(tb, list, max)
    ensures var t := a.field as int % NFA_TYPES;
            NfnlTable(if 0 < t <= max then tb[t - 1 := a] else tb, list + [a], max)
  {
    var t := a.field as int % NFA_TYPES;
    var tb' := if 0 < t <= max then tb[t - 1 := a] else tb;
    assert (list + [a])[..|list|] == list;
    forall k
      ensures Slot(tb', k) == if 0 <= k < max then Last(list + [a], NFA_TYPES, k + 1) else None
    {
      assert Slot(tb, k) == if 0 <= k < max then Last(list, NFA_TYPES, k + 1) else None;
    }
  }

  /** The attributes determine the table, so every way of filling it agrees. */
  lemma TableUnique(tb: Table, list: seq<RawAttr>, max: nat)
    requires NfnlTable(tb, list, max)
    ensures tb == TableOf(list, max)
  {
    TableOfIs(list, max);
    var tb' := TableOf(list, max);
    forall k
      ensures (k in tb <==> k in tb') && (k in tb ==> tb[k] == tb'[k])
    {
      assert Slot(tb, k) == Slot(tb', k);
    }
  }

  /** Filling a table attribute by attribute. */
  function TableOf(list: seq<RawAttr>, max: nat): Table {
    if list == [] then map[]
    else
      var a, tb := list[|list| - 1], TableOf(list[..|list| - 1], max);
      var t := a.field as int % NFA_TYPES;
      if 0 < t <= max then tb[t - 1 := a] else tb
  }

  lemma {:induction false} TableOfIs(list: seq<RawAttr>, max: nat)
    ensures NfnlTable(TableOf(list, max), list, max)
    decreases |list|
  {
    if list == [] {
      EmptyTable(max);
    } else {
      var n := |list| - 1;
      TableOfIs(list[..n], max);
      TableStep(TableOf(list[..n], max), list[..n], max, list[n]);
      assert list[..n] + [list[n]] == list;
    }
  }

  ghost predicate NoTypeZero(list: seq<RawAttr>) {
    forall i :: 0 <= i < |list| ==> list[i].field as int % NFA_TYPES != 0
  }

  /** nfnl_parse_attr: the table and the bytes that could not be parsed. */
  method ParseAttr(s: seq<byte>, max: nat, start: nat, total: nat, beyond: u16) returns (rest: int, tb: Table)
    requires start + total <= |s|
    requires NoTypeZero(Attrs(s, start, start + total))
    ensures NfnlTable(tb, Attrs(s, start, start + total), max)
    ensures rest == start + total - AttrStop(s, start, start + total)
  {
    hide Attrs, NfnlTable, AttrStop, OkAt;
    var pos: nat, len: int, end := start, total, start + total;
    ghost var list, i: nat := Attrs(s, start, end), 0;
    tb := map[];
    EmptyTable(max);
    while NfaOk(s, pos, len, beyond)
      invariant len == end - pos
      invariant AttrWire.Walking(s, pos, end, list, i)
      invariant AttrStop(s, pos, end) == AttrStop(s, start, end)
      invariant NfnlTable(tb, list[..i], max)
      decreases len
    {
      NfaOkIff(s, pos, end, beyond);
      AttrStopStep(s, pos, end);
      AttrsStep(s, pos, end, list, i);
      var a := RawAt(s, pos, end);
      TableStep(tb, list[..i], max, a);
      var t := a.field as int % NFA_TYPES;
      if t <= max {
        tb := tb[t - 1 := a];
      }
      i := i + 1;
      len := len - Align(Le16(s, pos));
      pos := pos + Align(Le16(s, pos));
    }
    NfaOkIff(s, pos, end, beyond);
    AttrStopStep(s, pos, end);
    AttrsEnd(s, pos, end, list, i);
    rest := len;
  }

  /** Where the walk over attributes stops. */
  function AttrStop(s: seq<byte>, pos: nat, end: nat): nat
    requires end <= |s|
    decreases end - pos
  {
    if !OkAt(s, pos, end) then pos else AttrStop(s, pos + Align(Le16(s, pos)), end)
  }

  lemma AttrStopStep(s: seq<byte>, pos: nat, end: nat)
    requires end <= |s|
    ensures OkAt(s, pos, end) ==> pos + ATTR_HDRLEN <= end && AttrStop(s, pos, end) == AttrStop(s, pos + Align(Le16(s, pos)), end)
    ensures !OkAt(s, pos, end) ==> AttrStop(s, pos, end) == pos
  {
  }

  /** For streams whose types leave bit 14 clear, this library and libmnl agree on the last
      attribute of every type. */
  lemma {:induction false} MasksAgree(list: seq<RawAttr>, typ: int)
    requires forall a <- list :: a.field as int % NFA_TYPES < NLA_TYPES
    ensures Last(list, NFA_TYPES, typ) == Last(list, NLA_TYPES, typ)
    decreases |list|
  {
    if list != [] {
      var a := list[|list| - 1];
      assert a in list && a.field as int % NFA_TYPES == a.field as int % NLA_TYPES;
      MasksAgree(list[..|list| - 1], typ);
    }
  }

  /** On a stream that libmnl's queue parser accepts, both libraries hold the same attribute for
      every type: this one in the slot before. */
  lemma ReadersAgree(list: seq<RawAttr>, t: nat)
    requires forall a <- list :: a.field as int % NFA_TYPES < NLA_TYPES
    requires Fold(list, NfqCb, CB_OK, map[]).0 == CB_OK && 0 < t <= NFQA_MAX
    ensures Slot(TableOf(list, NFQA_MAX), t - 1) == Slot(Fold(list, NfqCb, CB_OK, map[]).1, t)
  {
    hide Fold;
    ValidatedParse(list);
    assert FirstUnreadable(list) == |list| && list[..|list|] == list;
    TableOfIs(list, NFQA_MAX);
    MasksAgree(list, t);
  }

  // ---------------------------------------------------------------- dispatch

  /** A registered callback and the number of attribute types it knows. */
  datatype NfnlCallback<!S> = NfnlCallback(attrCount: nat, call: Option<(seq<byte>, Table, S) -> (int, S)>)

  /** Each subsystem is the array of its callbacks, by message type. */
  type Handle<!S> = seq<seq<NfnlCallback<S>>>

  function SubsysId(m: seq<byte>): nat
    requires |m| >= NLMSG_HDRLEN
  {
    Le16(m, 4) as nat / 0x100
  }

  function MsgType(m: seq<byte>): nat
    requires |m| >= NLMSG_HDRLEN
  {
    Le16(m, 4) as nat % 0x100
  }

  /** The callback that a message is for, if the message is well formed and known. */
  function Target<S>(h: Handle<S>, m: seq<byte>): Option<NfnlCallback<S>>
    requires |h| == NFNL_MAX_SUBSYS + 1 && |m| >= NLMSG_HDRLEN
  {
    if SubsysId(m) > NFNL_MAX_SUBSYS || |m| < NFGEN_LEN || MsgType(m) >= |h[SubsysId(m)]| then None
    else Some(h[SubsysId(m)][MsgType(m)])
  }

  /** What handling one message means: refused, ignored, or given to its callback with the
      table of its attributes. */
  function Handled<S>(h: Handle<S>, m: seq<byte>, st: S): (int, S)
    requires |h| == NFNL_MAX_SUBSYS + 1 && |m| >= NLMSG_HDRLEN
  {
    match Target(h, m)
    case None => (CB_ERROR, st)
    case Some(cb) =>
      if cb.attrCount == 0 || cb.call.None? then (0, st)
      else cb.call.value(m, TableOf(Attrs(m, NFGEN_LEN, |m|), cb.attrCount), st)
  }

  /** What becomes of a message by its type field: the upper byte is the subsystem and the lower
      one the message type.  Subsystems above 16, unknown types and messages too short for both
      headers are refused; callbacks without a function or without attributes are passed over. */
  lemma HandledByType<S>(h: Handle<S>, m: seq<byte>, subsys: nat, typ: nat, st: S)
    requires |h| == 17 && |m| >= 16 && typ < 0x100 && Le16(m, 4) as nat == 0x100 * subsys + typ
    ensures if subsys > 16 || |m| < 20 || typ >= |h[subsys]| then Handled(h, m, st) == (-1, st)
            else
              var cb := h[subsys][typ];
              if cb.attrCount == 0 || cb.call.None? then Handled(h, m, st) == (0, st)
              else Handled(h, m, st) == cb.call.value(m, TableOf(Attrs(m, 20, |m|), cb.attrCount), st)
  {
    assert SubsysId(m) == subsys && MsgType(m) == typ;
  }

  /** nfnl_check_attributes: a negative errno, or 0 and the table; types it does not know and
      type 0 are skipped. */
  method CheckAttributes<S>(h: Handle<S>, m: seq<byte>, beyond: u16) returns (err: int, tb: Table)
    requires |h| == NFNL_MAX_SUBSYS + 1 && |m| >= NLMSG_HDRLEN
    ensures err == if Target(h, m).Some? then 0 else -22
    ensures err == 0 ==> NfnlTable(tb, Attrs(m, NFGEN_LEN, |m|), Target(h, m).value.attrCount)
  {
    tb := map[];
    if SubsysId(m) > NFNL_MAX_SUBSYS || MsgType(m) >= |h[SubsysId(m)]| || |m| < NFGEN_LEN {
      return -EINVAL, tb;
    }
    var count := h[SubsysId(m)][MsgType(m)].attrCount;
    if |m| > NFGEN_LEN {
      tb := FillTable(m, count, beyond);
    } else {
      EmptyTable(count);
    }
    err := 0;
  }

  /** The attribute loop of nfnl_check_attributes. */
  method FillTable(m: seq<byte>, count: nat, beyond: u16) returns (tb: Table)
    requires |m| > NFGEN_LEN
    ensures NfnlTable(tb, Attrs(m, NFGEN_LEN, |m|), count)
  {
    hide Attrs, NfnlTable;
    var pos: nat, len := NFGEN_LEN, |m| - NFGEN_LEN;
    ghost var list, i: nat := Attrs(m, NFGEN_LEN, |m|), 0;
    tb := map[];
    EmptyTable(count);
    while NfaOk(m, pos, len, beyond)
      invariant len == |m| - pos
      invariant AttrWire.Walking(m, pos, |m|, list, i)
      invariant NfnlTable(tb, list[..i], count)
      decreases len
    {
      NfaOkIff(m, pos, |m|, beyond);
      AttrsStep(m, pos, |m|, list, i);
      var a := RawAt(m, pos, |m|);
      TableStep(tb, list[..i], count, a);
      var flavor := a.field as int % NFA_TYPES;
      if flavor != 0 {
        if flavor <= count {
          tb := tb[flavor - 1 := a];
        }
      }
      assert NfnlTable(tb, list[..i + 1], count);
      i := i + 1;
      len := len - Align(Le16(m, pos));
      pos := pos + Align(Le16(m, pos));
    }
    NfaOkIff(m, pos, |m|, beyond);
    AttrsEnd(m, pos, |m|, list, i);
  }

  /** __nfnl_handle_msg */
  method HandleMsg<S>(h: Handle<S>, m: seq<byte>, st: S, beyond: u16) returns (ret: int, st': S)
    requires |h| == NFNL_MAX_SUBSYS + 1 && |m| >= NLMSG_HDRLEN
    ensures (ret, st') == Handled(h, m, st)
  {
    if SubsysId(m) > NFNL_MAX_SUBSYS || |m| < NFGEN_LEN || MsgType(m) >= |h[SubsysId(m)]| {
      return CB_ERROR, st;
    }
    var cb := h[SubsysId(m)][MsgType(m)];
    ret, st' := 0, st;
    if cb.attrCount != 0 {
      var err, tb := CheckAttributes(h, m, beyond);
      TableUnique(tb, Attrs(m, NFGEN_LEN, |m|), cb.attrCount);
      if cb.call.Some? {
        var (r, s) := cb.call.value(m, tb, st);
        ret, st' := r, s;
      }
    }
  }

  // ---------------------------------------------------------------- the receive loop

  /** Handling messages in order until one fails: whether all went well, and the last state. */
  function HandledAll<S>(h: Handle<S>, ms: seq<RawMsg>, st: S): (bool, S)
    requires |h| == NFNL_MAX_SUBSYS + 1 && forall m <- ms :: m.Valid()
  {
    if ms == [] then (true, st)
    else
      assert ms[0].Valid();
      var (r, st') := Handled(h, ms[0].bytes, st);
      if r < 0 then (false, st') else HandledAll(h, ms[1..], st')
  }

  /** After a message that fails no other one is handled; otherwise the run carries on from the
      state it reached. */
  lemma {:induction false} FailureCuts<S>(h: Handle<S>, ms: seq<RawMsg>, later: seq<RawMsg>, st: S)
    requires |h| == NFNL_MAX_SUBSYS + 1 && (forall m <- ms :: m.Valid()) && (forall m <- later :: m.Valid())
    ensures var (ok, st') := HandledAll(h, ms, st);
            HandledAll(h, ms + later, st) == if ok then HandledAll(h, later, st') else (false, st')
    decreases |ms|
  {
    if ms == [] {
      assert ms + later == later;
    } else {
      assert (ms + later)[1..] == ms[1..] + later;
      assert ms[0].Valid();
      var (r, st') := Handled(h, ms[0].bytes, st);
      if r >= 0 {
        FailureCuts(h, ms[1..], later, st');
      }
    }
  }

  /** A run over the messages that stands before message `i`. */
  ghost predicate Handling<S>(h: Handle<S>, ms: seq<RawMsg>, st0: S, i: nat, st: S)
    requires |h| == NFNL_MAX_SUBSYS + 1 && forall m <- ms :: m.Valid()
  {
    i <= |ms| && HandledAll(h, ms, st0) == HandledAll(h, ms[i..], st)
  }

  lemma HandlingStep<S>(h: Handle<S>, ms: seq<RawMsg>, st0: S, i: nat, st: S)
    requires |h| == NFNL_MAX_SUBSYS + 1 && forall m <- ms :: m.Valid()
    requires i < |ms| && Handling(h, ms, st0, i, st)
    ensures ms[i].Valid()
    ensures var (r, st') := Handled(h, ms[i].bytes, st);
            if r < 0 then HandledAll(h, ms, st0) == (false, st') else Handling(h, ms, st0, i + 1, st')
  {
    hide Handled;
    assert ms[i].Valid();
    assert ms[i..][0] == ms[i] && ms[i..][1..] == ms[i + 1..];
  }

  lemma HandlingEnds<S>(h: Handle<S>, ms: seq<RawMsg>, st0: S, st: S)
    requires |h| == NFNL_MAX_SUBSYS + 1 && forall m <- ms :: m.Valid()
    requires Handling(h, ms, st0, |ms|, st)
    ensures HandledAll(h, ms, st0) == (true, st)
  {
  }

  /** nfnl_handle_packet.  The messages of the buffer go to the handler in order, each once,
      until one fails; the answer is 0 only when all of them were handled and fewer than a
      header's worth of bytes remained. */
  method HandlePacket<S>(h: Handle<S>, buf: array<byte>, total: nat, st0: S, beyond: u16) returns (ret: int, st: S)
    requires |h| == NFNL_MAX_SUBSYS + 1 && total <= buf.Length
    ensures var (ok, last) := HandledAll(h, Msgs(buf[..], 0, total), st0);
            st == last && ret == if ok && Left(buf[..], 0, total) < NLMSG_HDRLEN then 0 else CB_ERROR
  {
    hide Messages.Msgs, Messages.Stop, Messages.After, Handled, HandledAll, Handling;
    var s := buf[..];
    var pos: nat, len: nat := 0, total;
    ghost var ms, i: nat := Msgs(s, 0, total), 0;
    st := st0;
    HandlingStarts(h, ms, st0);
    while len >= NLMSG_HDRLEN
      invariant pos + len == total
      invariant Messages.Walking(s, pos, total, ms, i)
      invariant Handling(h, ms, st0, i, st)
      decreases len
    {
      var n := Le32(s, pos) as nat;
      if n < NLMSG_HDRLEN || len < n {
        WalkEnds(s, pos, total, ms, i);
        HandlingEnds(h, ms, st0, st);
        return CB_ERROR, st;
      }
      var rlen := Min(Align(n), len);
      ClippedStep(s, pos, total, pos + rlen, ms, i);
      HandlingStep(h, ms, st0, i, st);
      var r;
      r, st := HandleMsg(h, s[pos..pos + n], st, beyond);
      if r < 0 {
        return CB_ERROR, st;
      }
      i := i + 1;
      len := len - rlen;
      pos := pos + rlen;
    }
    WalkEnds(s, pos, total, ms, i);
    HandlingEnds(h, ms, st0, st);
    ret := 0;
  }

  lemma HandlingStarts<S>(h: Handle<S>, ms: seq<RawMsg>, st: S)
    requires |h| == NFNL_MAX_SUBSYS + 1 && forall m <- ms :: m.Valid()
    ensures Handling(h, ms, st, 0, st)
  {
    assert ms[0..] == ms;
  }
}
