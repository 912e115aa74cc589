/** The attribute parsers: the loops of attr.c over a message, a nest or a raw payload, and
    the validating table filler of libnetfilter_queue. */
module AttrParser {
  import opened Wrappers
  import opened Bytes
  import opened AttrWire
  import opened Builder

  const CB_ERROR := -1
  const CB_STOP := 0
  const CB_OK := 1

  /** A parser callback over a client state: the return code and the next state. */
  type AttrCb<!S> = (RawAttr, S) -> (int, S)

  /** Running a callback over a list of attributes until it answers 0 or less. */
  function Fold<S>(list: seq<RawAttr>, cb: AttrCb<S>, ret: int, st: S): (int, S) {
    if list == [] then (ret, st)
    else
      var (r, st') := cb(list[0], st);
      if r <= CB_STOP then (r, st') else Fold(list[1..], cb, r, st')
  }

  // ---------------------------------------------------------------- libmnl

  /** mnl_attr_parse_payload; the other two parsers differ only in the range they pass. */
  method ParsePayload<S>(buf: array<byte>, start: nat, end: nat, cb: AttrCb<S>, st0: S) returns (ret: int, st: S)
    requires end <= buf.Length
    ensures (ret, st) == Fold(Attrs(buf[..], start, end), cb, CB_OK, st0)
  {
    ret, st := CB_OK, st0;
    var pos := start;
    while OkAt(buf[..], pos, end)
      invariant Fold(Attrs(buf[..], pos, end), cb, ret, st) == Fold(Attrs(buf[..], start, end), cb, CB_OK, st0)
      decreases end - pos
    {
      var (r, st') := cb(RawAt(buf[..], pos, end), st);
      ret, st := r, st';
      if ret <= CB_STOP {
        return;
      }
      pos := pos + Align(Le16(buf[..], pos));
    }
  }

  /** mnl_attr_parse: the attributes after the extra header, up to the aligned message end. */
  method Parse<S>(buf: array<byte>, offset: nat, cb: AttrCb<S>, st0: S) returns (ret: int, st: S)
    requires buf.Length >= 4 && Tail(buf[..]) <= buf.Length
    ensures (ret, st) == Fold(MsgAttrs(buf[..], offset), cb, CB_OK, st0)
  {
    ret, st := ParsePayload(buf, NLMSG_HDRLEN + Align(offset), Tail(buf[..]), cb, st0);
  }

  function MsgAttrs(s: seq<byte>, offset: nat): seq<RawAttr>
    requires |s| >= 4 && Tail(s) <= |s|
  {
    Attrs(s, NLMSG_HDRLEN + Align(offset), Tail(s))
  }

  /** mnl_attr_parse_nested */
  method ParseNested<S>(buf: array<byte>, nest: nat, cb: AttrCb<S>, st0: S) returns (ret: int, st: S)
    requires nest <= buf.Length && OkAt(buf[..], nest, buf.Length)
    ensures (ret, st) == Fold(Attrs(buf[..], nest + ATTR_HDRLEN, RawAt(buf[..], nest, buf.Length).End()), cb, CB_OK, st0)
  {
    ret, st := ParsePayload(buf, nest + ATTR_HDRLEN, nest + Le16(buf[..], nest) as nat, cb, st0);
  }

  /** A callback that keeps every attribute. */
  function Collect(a: RawAttr, kept: seq<RawAttr>): (int, seq<RawAttr>) { (CB_OK, kept + [a]) }

  lemma {:induction false} CollectAll(list: seq<RawAttr>, ret: int, kept: seq<RawAttr>)
    ensures Fold(list, Collect, ret, kept).1 == kept + list
    decreases |list|
  {
    if list == [] {
      assert kept + list == kept;
    } else {
      CollectAll(list[1..], CB_OK, kept + [list[0]]);
      assert kept + [list[0]] + list[1..] == kept + list;
    }
  }

  /** A client that reads a whole forest, parsing each flagged attribute again as a nest. */
  method ReadForest(buf: array<byte>, start: nat, end: nat) returns (ts: seq<Attr>)
    requires start <= end <= buf.Length
    ensures ts == ReadTrees(buf[start..end])
    decreases end - start, 1
  {
    hide Attrs, ReadTrees, TreeOf, Trees, Fold;
    ghost var s := buf[..];
    var _, list := ParsePayload(buf, start, end, Collect, []);
    CollectAll(Attrs(s, start, end), CB_OK, []);
    assert list == Attrs(s, start, end);
    ts := [];
    var i := 0;
    TreesNone(list);
    while i < |list|
      invariant 0 <= i <= |list| && ts == Trees(list[..i])
    {
      AttrPlace(s, start, end, i);
      TreesNext(list, i);
      var t := ReadAttr(buf, list[i]);
      ts := ts + [t];
      i := i + 1;
    }
    assert list[..i] == list;
    TreesRead(s, start, end);
  }

  lemma TreesNone(list: seq<RawAttr>)
    ensures Trees(list[..0]) == Trees([]) == []
  {
  }

  lemma TreesNext(list: seq<RawAttr>, i: nat)
    requires i < |list|
    ensures Trees(list[..i + 1]) == Trees(list[..i]) + [TreeOf(list[i])]
  {
    assert list[..i + 1] == list[..i] + [list[i]];
    TreesAppend(list[..i], list[i]);
  }

  lemma AttrPlace(s: seq<byte>, start: nat, end: nat, i: nat)
    requires end <= |s| && i < |Attrs(s, start, end)|
    ensures var a := Attrs(s, start, end)[i];
            start <= a.at && a.End() <= end && a.payload == s[a.at + ATTR_HDRLEN..a.End()]
  {
    AttrsInBounds(s, start, end);
    assert Attrs(s, start, end)[i] in Attrs(s, start, end);
  }

  method ReadAttr(buf: array<byte>, a: RawAttr) returns (t: Attr)
    requires a.End() <= buf.Length && a.payload == buf[a.at + ATTR_HDRLEN..a.End()]
    ensures t == TreeOf(a)
    decreases ATTR_HDRLEN + |a.payload|, 0
  {
    if a.field as nat >= NLA_F_NESTED {
      var children := ReadForest(buf, a.at + ATTR_HDRLEN, a.End());
      t := Nest(a.Type(), children);
    } else {
      t := Leaf(a.Type(), a.payload);
    }
  }

  function Trees(list: seq<RawAttr>): seq<Attr> {
    if list == [] then [] else [TreeOf(list[0])] + Trees(list[1..])
  }

  lemma {:induction false} TreesAppend(list: seq<RawAttr>, a: RawAttr)
    ensures Trees(list + [a]) == Trees(list) + [TreeOf(a)]
  {
    if list == [] {
      assert list + [a] == [a];
    } else {
      assert (list + [a])[1..] == list[1..] + [a];
      TreesAppend(list[1..], a);
    }
  }

  /** The recursive reader is the loop over attributes, applied again inside each nest. */
  lemma {:induction false} TreesRead(s: seq<byte>, pos: nat, end: nat)
    requires pos <= end <= |s|
    ensures Trees(Attrs(s, pos, end)) == ReadTrees(s[pos..end])
    decreases end - pos
  {
    hide Attrs, ReadTrees, Trees, TreeOf, RawAt;
    SameAttr(s, pos, end);
    TreesNone([]);
    if OkAt(s, pos, end) {
      var next := pos + Align(Le16(s, pos));
      TreesCons(RawAt(s, pos, end), Attrs(s, next, end));
      if next <= end {
        TreesRead(s, next, end);
      } else {
        NoneLeft(s, next, end);
      }
    }
  }

  lemma TreesCons(a: RawAttr, list: seq<RawAttr>)
    ensures Trees([a] + list) == [TreeOf(a)] + Trees(list)
  {
    assert ([a] + list)[1..] == list;
  }

  lemma NoneLeft(s: seq<byte>, pos: nat, end: nat)
    requires end <= |s| && end <= pos
    ensures Attrs(s, pos, end) == [] && ReadTrees(s[end..end]) == []
  {
  }

  lemma SameAttr(s: seq<byte>, pos: nat, end: nat)
    requires pos <= end <= |s|
    ensures !OkAt(s, pos, end) ==> Attrs(s, pos, end) == [] && ReadTrees(s[pos..end]) == []
    ensures OkAt(s, pos, end) ==>
              var a, next := RawAt(s, pos, end), pos + Align(Le16(s, pos));
              && Attrs(s, pos, end) == [a] + Attrs(s, next, end)
              && ReadTrees(s[pos..end]) == [TreeOf(a)] + ReadTrees(s[Min(next, end)..end])
  {
    hide Attrs, ReadTrees, OkAt, TreeOf, ReadTree, RawAt;
    SameHeader(s, pos, end);
    AttrsCons(s, pos, end);
    ReadTreesCons(s[pos..end]);
    if OkAt(s, pos, end) {
      SliceDrop(s, pos, end, Stride(s[pos..end]));
      SameTree(s, pos, end);
    }
  }

  lemma AttrsCons(s: seq<byte>, pos: nat, end: nat)
    requires end <= |s|
    ensures Attrs(s, pos, end) ==
            if OkAt(s, pos, end) then [RawAt(s, pos, end)] + Attrs(s, pos + Align(Le16(s, pos)), end) else []
  {
  }

  lemma ReadTreesCons(w: seq<byte>)
    ensures ReadTrees(w) == if AttrOk(w) then [ReadTree(w)] + ReadTrees(w[Stride(w)..]) else []
  {
  }

  lemma SameHeader(s: seq<byte>, pos: nat, end: nat)
    requires pos <= end <= |s|
    ensures OkAt(s, pos, end) <==> AttrOk(s[pos..end])
    ensures OkAt(s, pos, end) ==> Le16(s[pos..end], 0) == Le16(s, pos) && Stride(s[pos..end]) == Min(Align(Le16(s, pos)), end - pos)
  {
  }

  lemma SameTree(s: seq<byte>, pos: nat, end: nat)
    requires pos <= end <= |s| && OkAt(s, pos, end)
    ensures AttrOk(s[pos..end]) && TreeOf(RawAt(s, pos, end)) == ReadTree(s[pos..end])
  {
    var w, n := s[pos..end], Le16(s, pos) as nat;
    SameHeader(s, pos, end);
    forall i | ATTR_HDRLEN <= i < n
      ensures w[i] == s[pos + i]
    {
    }
    assert w[ATTR_HDRLEN..n] == s[pos + ATTR_HDRLEN..pos + n];
    assert Le16(w, 2) == Le16(s, pos + 2);
    hide TreeOf, Le16;
    assert RawAt(w, 0, |w|) == RawAt(s, pos, end).(at := 0);
    SameTreeOf(RawAt(w, 0, |w|), RawAt(s, pos, end));
  }

  /** The tree of an attribute does not depend on where it lies. */
  lemma SameTreeOf(a: RawAttr, b: RawAttr)
    requires a.field == b.field && a.payload == b.payload
    ensures TreeOf(a) == TreeOf(b)
  {
  }

  // ---------------------------------------------------------------- validation

  datatype DataType = Unspec | U8 | U16 | U32 | U64 | Str | Flag | Msecs | Nested | NestedCompat | NulStr | Binary

  datatype Verdict = Ok | Erange | Einval

  /** __mnl_attr_validate, check by check. */
  function Validate(payload: seq<byte>, typ: DataType, expLen: nat): Verdict {
    if |payload| < expLen then Erange
    else if typ == Flag && |payload| > 0 then Erange
    else if typ == NulStr && |payload| == 0 then Erange
    else if typ == NulStr && payload[|payload| - 1] != 0 then Einval
    else if typ == Str && |payload| == 0 then Erange
    else if typ == Nested && 0 < |payload| < ATTR_HDRLEN then Erange
    else if expLen != 0 && |payload| > expLen then Erange
    else Ok
  }

  /** mnl_attr_data_type_len: the sizes that mnl_attr_validate expects. */
  function DataLen(typ: DataType): nat {
    match typ
    case U8 => 1
    case U16 => 2
    case U32 => 4
    case U64 => 8
    case Msecs => 8
    case _ => 0
  }

  /** What an accepted payload is, type by type. */
  predicate WellFormed(payload: seq<byte>, typ: DataType, expLen: nat) {
    && (expLen == 0 || |payload| == expLen)
    && (typ == Flag ==> payload == [])
    && (typ == Str || typ == NulStr ==> payload != [])
    && (typ == NulStr && payload != [] ==> payload[|payload| - 1] == 0)
    && (typ == Nested ==> payload == [] || |payload| >= ATTR_HDRLEN)
  }

  lemma ValidateIff(payload: seq<byte>, typ: DataType, expLen: nat)
    ensures Validate(payload, typ, expLen) == Ok <==> WellFormed(payload, typ, expLen)
    ensures Validate(payload, typ, expLen) == Einval ==> typ == NulStr && |payload| >= expLen
  {
  }

  /** mnl_attr_validate, type by type. */
  lemma TypedSizes(p: seq<byte>)
    ensures Validate(p, U8, DataLen(U8)) == Ok <==> |p| == 1
    ensures Validate(p, U16, DataLen(U16)) == Ok <==> |p| == 2
    ensures Validate(p, U32, DataLen(U32)) == Ok <==> |p| == 4
    ensures Validate(p, U64, DataLen(U64)) == Ok <==> |p| == 8
    ensures Validate(p, Msecs, DataLen(Msecs)) == Ok <==> |p| == 8
    ensures Validate(p, Flag, DataLen(Flag)) == Ok <==> p == []
    ensures Validate(p, Str, DataLen(Str)) == Ok <==> p != []
    ensures Validate(p, NulStr, DataLen(NulStr)) == Ok <==> p != [] && p[|p| - 1] == 0
    ensures Validate(p, Nested, DataLen(Nested)) == Ok <==> p == [] || |p| >= 4
    ensures Validate(p, Unspec, DataLen(Unspec)) == Ok && Validate(p, Binary, DataLen(Binary)) == Ok && Validate(p, NestedCompat, DataLen(NestedCompat)) == Ok
  {
  }

  // ---------------------------------------------------------------- nfq_nlmsg_parse

  const NFQA_PACKET_HDR := 1
  const NFQA_MARK := 3
  const NFQA_TIMESTAMP := 4
  const NFQA_IFINDEX_INDEV := 5
  const NFQA_IFINDEX_OUTDEV := 6
  const NFQA_IFINDEX_PHYSINDEV := 7
  const NFQA_IFINDEX_PHYSOUTDEV := 8
  const NFQA_HWADDR := 9
  const NFQA_PAYLOAD := 10
  const NFQA_CT := 11
  const NFQA_CT_INFO := 12
  const NFQA_CAP_LEN := 13
  const NFQA_SKB_INFO := 14
  const NFQA_EXP := 15
  const NFQA_UID := 16
  const NFQA_GID := 17
  const NFQA_SECCTX := 18
  const NFQA_MAX := 18

  /** The table of attribute pointers: a slot without an entry is a null pointer. */
  type Table = map<int, RawAttr>

  function Slot(tb: Table, t: int): Option<RawAttr> { if t in tb then Some(tb[t]) else None }

  /** The check that nfq_pkt_parse_attr_cb makes on an attribute type, if any. */
  function NfqCheck(typ: u16): Option<(DataType, nat)> {
    if typ as int in [NFQA_MARK, NFQA_IFINDEX_INDEV, NFQA_IFINDEX_OUTDEV, NFQA_IFINDEX_PHYSINDEV, NFQA_IFINDEX_PHYSOUTDEV,
        NFQA_CAP_LEN, NFQA_SKB_INFO, NFQA_SECCTX, NFQA_UID, NFQA_GID, NFQA_CT_INFO]
    then Some((U32, DataLen(U32)))
    else if typ == NFQA_TIMESTAMP then Some((Unspec, 16))
    else if typ == NFQA_HWADDR then Some((Unspec, 12))
    else if typ == NFQA_PACKET_HDR then Some((Unspec, 7))
    else None
  }

  /** nfq_pkt_parse_attr_cb */
  function NfqCb(a: RawAttr, tb: Table): (int, Table) {
    if a.Type() as int > NFQA_MAX then (CB_OK, tb)
    else
      var check := NfqCheck(a.Type());
      if check.Some? && Validate(a.payload, check.value.0, check.value.1) != Ok then (CB_ERROR, tb)
      else (CB_OK, tb[a.Type() as int := a])
  }

  /** What the getters of libnetfilter_queue do with a payload: read a structure or a word of a
      fixed size, hand out all of it with its length, or there is no getter. */
  datatype Getter = Fixed(size: nat) | Whole | NoGetter

  /** The getters, type by type, with the layouts of the structures that they read. */
  function GetterOf(typ: u16): Getter {
    if typ == NFQA_PACKET_HDR then Fixed(4 + 2 + 1)
    else if typ == NFQA_TIMESTAMP then Fixed(8 + 8)
    else if typ == NFQA_HWADDR then Fixed(2 + 2 + 8)
    else if typ == NFQA_MARK || NFQA_IFINDEX_INDEV <= typ as int <= NFQA_IFINDEX_PHYSOUTDEV then Fixed(4)
    else if typ == NFQA_UID || typ == NFQA_GID then Fixed(4)
    else if typ == NFQA_PAYLOAD || typ == NFQA_SECCTX then Whole
    else NoGetter
  }

  /** An attribute that its getter can use: any length will do for one that is handed out whole. */
  predicate Usable(a: RawAttr) { GetterOf(a.Type()).Fixed? ==> |a.payload| == GetterOf(a.Type()).size }

  /** The words that are checked although no getter reads them as such. */
  predicate OtherWord(typ: u16) { typ as int in [NFQA_CT_INFO, NFQA_CAP_LEN, NFQA_SKB_INFO, NFQA_SECCTX] }

  /** An attribute that the parser lets through. */
  predicate Readable(a: RawAttr) { Usable(a) && (OtherWord(a.Type()) ==> |a.payload| == 4) }

  /** For a type whose getter reads a fixed size, the callback accepts exactly that size. */
  lemma CheckFitsGetter(a: RawAttr, tb: Table)
    requires GetterOf(a.Type()).Fixed?
    ensures NfqCb(a, tb).0 == CB_OK <==> |a.payload| == GetterOf(a.Type()).size
  {
  }

  /** The same by the numbers of the types: what is refused, and what is stored where. */
  lemma CheckedByNumber(a: RawAttr, tb: Table)
    ensures var t, n := a.field as int % 0x4000, |a.payload|;
            var fine := (t == 1 ==> n == 7) && (t == 4 ==> n == 16) && (t == 9 ==> n == 12)
                        && (t in [3, 5, 6, 7, 8, 12, 13, 14, 16, 17, 18] ==> n == 4);
            NfqCb(a, tb) == if t > 18 then (1, tb) else if fine then (1, tb[t := a]) else (-1, tb)
  {
  }

  /** nfq_nlmsg_parse into a zeroed table. */
  method NfqParse(buf: array<byte>) returns (ret: int, tb: Table)
    requires buf.Length >= 4 && Tail(buf[..]) <= buf.Length
    ensures (ret, tb) == Fold(MsgAttrs(buf[..], 4), NfqCb, CB_OK, map[])
  {
    ret, tb := Parse(buf, 4, NfqCb, map[]);
  }

  /** The last attribute of a type in a list, for a reader that keeps the type field modulo
      `mask`. */
  function Last(list: seq<RawAttr>, mask: nat, typ: int): Option<RawAttr>
    requires mask > 0
  {
    if list == [] then None
    else if list[|list| - 1].field as int % mask == typ then Some(list[|list| - 1])
    else Last(list[..|list| - 1], mask, typ)
  }

  /** The parser answers OK exactly when every attribute is readable, and the table then holds
      the last attribute of each known type; otherwise it answers ERROR and the table holds
      what came before the first unreadable attribute. */
  lemma ValidatedParse(list: seq<RawAttr>)
    ensures var (ret, tb) := Fold(list, NfqCb, CB_OK, map[]);
            && ret == (if forall a <- list :: Readable(a) then CB_OK else CB_ERROR)
            && Holds(tb, list[..FirstUnreadable(list)])
  {
    NfqFold([], list, map[]);
    assert [] + list[..FirstUnreadable(list)] == list[..FirstUnreadable(list)];
    if forall a <- list :: Readable(a) {
      assert FirstUnreadable(list) == |list|;
    }
  }

  /** Each slot up to NFQA_MAX holds the last attribute of its type, and there are no others. */
  ghost predicate Holds(tb: Table, list: seq<RawAttr>) {
    forall t :: Slot(tb, t) == if t <= NFQA_MAX then Last(list, NLA_TYPES, t) else None
  }

  function FirstUnreadable(list: seq<RawAttr>): (n: nat)
    ensures n <= |list| && (forall i :: 0 <= i < n ==> Readable(list[i])) && (n < |list| ==> !Readable(list[n]))
  {
    if list == [] || !Readable(list[0]) then 0 else 1 + FirstUnreadable(list[1..])
  }

  lemma NfqStore(seen: seq<RawAttr>, a: RawAttr, tb: Table)
    requires Holds(tb, seen) && Readable(a)
    ensures NfqCb(a, tb).0 == CB_OK && Holds(NfqCb(a, tb).1, seen + [a])
  {
    var tb', seen' := NfqCb(a, tb).1, seen + [a];
    assert seen'[..|seen|] == seen;
    forall t | t <= NFQA_MAX
      ensures Slot(tb', t) == Last(seen', NLA_TYPES, t)
    {
      assert Slot(tb, t) == Last(seen, NLA_TYPES, t);
    }
    forall t | t > NFQA_MAX
      ensures Slot(tb', t) == None
    {
      assert Slot(tb, t) == None;
    }
  }

  lemma NfqRefuse(a: RawAttr, tb: Table)
    requires !Readable(a)
    ensures NfqCb(a, tb) == (CB_ERROR, tb)
  {
  }

  lemma {:induction false} NfqFold(seen: seq<RawAttr>, list: seq<RawAttr>, tb: Table)
    requires Holds(tb, seen)
    ensures var (ret, tb') := Fold(list, NfqCb, CB_OK, tb);
            && ret == (if FirstUnreadable(list) == |list| then CB_OK else CB_ERROR)
            && Holds(tb', seen + list[..FirstUnreadable(list)])
    decreases |list|
  {
    hide Holds, Last, NfqCb, Readable;
    if list == [] {
      assert seen + list[..0] == seen;
    } else if Readable(list[0]) {
      NfqStore(seen, list[0], tb);
      NfqFold(seen + [list[0]], list[1..], NfqCb(list[0], tb).1);
      assert seen + [list[0]] + list[1..][..FirstUnreadable(list[1..])] == seen + list[..FirstUnreadable(list)];
    } else {
      NfqRefuse(list[0], tb);
      assert seen + list[..0] == seen;
    }
  }

  /** A security context is handed out whole, but the parser asks for four bytes: in a list
      whose other attributes are fine, every context decides. */
  lemma ContextIff(list: seq<RawAttr>)
    requires forall a <- list :: a.Type() as int != NFQA_SECCTX ==> Readable(a)
    ensures Fold(list, NfqCb, CB_OK, map[]).0 == CB_OK <==>
            forall a <- list :: a.Type() as int == NFQA_SECCTX ==> |a.payload| == 4
  {
    ValidatedParse(list);
    assert forall a: RawAttr :: a.Type() as int == NFQA_SECCTX ==> (Readable(a) <==> |a.payload| == 4);
  }

  /** A queue message whose only attribute is the context "user_u:r:t" is refused, although its
      getter could use it. */
  lemma ContextRefused()
    ensures var m := ContextMessage();
            && Tail(m) <= |m| && MsgAttrs(m, 4) == [RawAttr(20, 18, m[24..34])] && Usable(MsgAttrs(m, 4)[0])
            && Fold(MsgAttrs(m, 4), NfqCb, CB_OK, map[]).0 == CB_ERROR
  {
    hide Attrs, Fold, ContextMessage, Le16, Le32;
    var m := ContextMessage();
    ContextFields();
    var a := RawAttr(20, 18, m[24..34]);
    AttrsCons(m, 20, 36);
    AttrsCons(m, 36, 36);
    ValidatedParse([a]);
    assert a in [a] && !Readable(a);
  }

  lemma ContextFields()
    ensures var m := ContextMessage(); |m| == 36 && Le32(m, 0) == 36 && Le16(m, 20) == 14 && Le16(m, 22) == 18
  {
  }

  function ContextMessage(): seq<byte> {
    [36, 0, 0, 0, 0, 3, 0, 0, 0, 0, 0, 0, 0, 0, 0, 0, 2, 0, 0, 0, 14, 0, 18, 0, 117, 115, 101, 114, 95, 117, 58, 114, 58, 116, 0, 0]
  }

  /** On success every slot has exactly the size its getter reads, where that is fixed, and every
      held attribute lies inside the aligned message, after the extra header. */
  lemma ParsedSlots(s: seq<byte>, t: u16)
    requires |s| >= 4 && Tail(s) <= |s|
    ensures var (ret, tb) := Fold(MsgAttrs(s, 4), NfqCb, CB_OK, map[]);
            ret == CB_OK && t as int in tb ==>
              var a := tb[t as int];
              && a.Type() == t && Usable(a) && (OtherWord(t) ==> |a.payload| == 4)
              && NLMSG_HDRLEN + 4 <= a.at && a.End() <= Tail(s)
              && a.payload == s[a.at + ATTR_HDRLEN..a.End()]
  {
    var list := MsgAttrs(s, 4);
    ValidatedParse(list);
    var seen := list[..FirstUnreadable(list)];
    LastIn(seen, NLA_TYPES, t as int);
    AttrsInBounds(s, NLMSG_HDRLEN + 4, Tail(s));
  }

  lemma {:induction false} LastIn(list: seq<RawAttr>, mask: nat, t: int)
    requires mask > 0
    ensures Last(list, mask, t).Some? ==> Last(list, mask, t).value in list && Last(list, mask, t).value.field as int % mask == t
    ensures Last(list, mask, t).None? ==> forall a <- list :: a.field as int % mask != t
    decreases |list|
  {
    if list != [] {
      LastIn(list[..|list| - 1], mask, t);
      assert forall a :: a in list ==> a == list[|list| - 1] || a in list[..|list| - 1];
    }
  }
}
