/** The attribute parser of rtnl.c, and what iftable.c reads from a link message. */
module RtnlAttrs {
  import opened Wrappers
  import opened Bytes
  import opened AttrWire
  import opened AttrParser
  import opened Receive

  /** An rtattr type is compared as it is, with all its sixteen bits. */
  const RTA_TYPES: nat := 0x1_0000
  const IFLA_IFNAME := 3
  /** The kernel's headers set it; all that matters is that it is not below IFLA_IFNAME. */
  const IFLA_MAX := 64
  const IFNAMSIZ := 16
  /** Where the attributes of a link message start: after both headers. */
  const LINK_ATTRS: nat := 32

  /** Slot k holds the last attribute of type k.  The caller's table is cleared up to but not
      including slot `max`: without an attribute of that type it keeps what it held. */
  ghost predicate RtTable(tb: Table, list: seq<RawAttr>, max: nat, stale: Option<RawAttr>) {
    forall k {:trigger Slot(tb, k)} :: Slot(tb, k) == Expected(list, max, stale, k)
  }

  function Expected(list: seq<RawAttr>, max: nat, stale: Option<RawAttr>, k: int): Option<RawAttr> {
    if k < 0 || k > max then None
    else if k == max && Last(list, RTA_TYPES, k).None? then stale
    else Last(list, RTA_TYPES, k)
  }

  function Cleared(max: nat, stale: Option<RawAttr>): Table { if stale.Some? then map[max := stale.value] else map[] }

  lemma NoAttrs(max: nat, stale: Option<RawAttr>)
    ensures RtTable(Cleared(max, stale), [], max, stale)
  {
  }

  lemma NextAttr(tb: Table, list: seq<RawAttr>, max: nat, stale: Option<RawAttr>, a: RawAttr)
    requires RtTable(tb, list, max, stale)
    ensures RtTable(if a.field as nat <= max then tb[a.field as int := a] else tb, list + [a], max, stale)
  {
    var tb' := if a.field as nat <= max then tb[a.field as int := a] else tb;
    assert (list + [a])[..|list|] == list;
    forall k
      ensures Slot(tb', k) == Expected(list + [a], max, stale, k)
    {
      assert Slot(tb, k) == Expected(list, max, stale, k);
    }
  }

  /** rtnl_parse_rtattr over the rest of a message; `len` may start below zero, and `stale` is
      what the caller's table holds in slot `max`. */
  method ParseRtattr(s: seq<byte>, max: nat, stale: Option<RawAttr>, start: nat) returns (ret: int, tb: Table)
    ensures RtTable(tb, Attrs(s, start, |s|), max, stale)
    ensures ret == if AttrStop(s, start, |s|) == |s| then 0 else -1
  {
    hide Attrs, RtTable, AttrStop;
    var pos: nat, len: int, end := start, |s| - start, |s|;
    ghost var list, i: nat := Attrs(s, start, end), 0;
    tb := Cleared(max, stale);
    NoAttrs(max, stale);
    assert list[..0] == [] && list[0..] == list;
    while len >= ATTR_HDRLEN && Le16(s, pos) as int >= ATTR_HDRLEN && Le16(s, pos) as int <= len
      invariant len == end - pos
      invariant AttrWire.Walking(s, pos, end, list, i)
      invariant AttrStop(s, pos, end) == AttrStop(s, start, end)
      invariant RtTable(tb, list[..i], max, stale)
      decreases len
    {
      AttrStopStep(s, pos, end);
      AttrsStep(s, pos, end, list, i);
      var a := RawAt(s, pos, end);
      NextAttr(tb, list[..i], max, stale, a);
      if a.field as nat <= max {
        tb := tb[a.field as int := a];
      }
      i := i + 1;
      len := len - Align(Le16(s, pos));
      pos := pos + Align(Le16(s, pos));
    }
    AttrStopStep(s, pos, end);
    AttrsEnd(s, pos, end, list, i);
    ret := if len != 0 then -1 else 0;
  }

  /** The bytes of a C string, up to its first zero. */
  function CString(p: seq<byte>): seq<byte> {
    if p == [] || p[0] == 0 then [] else [p[0]] + CString(p[1..])
  }

  /** The attribute that names the interface, if the message has one: the last of its type. */
  function NameAttr(m: seq<byte>): Option<RawAttr> {
    Last(Attrs(m, LINK_ATTRS, |m|), RTA_TYPES, IFLA_IFNAME)
  }

  /** The kernel sends names that end with a zero and fit the name field; strcpy relies on it. */
  predicate NameFits(m: seq<byte>) {
    NameAttr(m).Some? ==> 0 in NameAttr(m).value.payload && |CString(NameAttr(m).value.payload)| < IFNAMSIZ
  }

  lemma NameRoom(m: seq<byte>)
    ensures NameAttr(m).Some? ==> |m| >= LINK_ATTRS + ATTR_HDRLEN
  {
  }
}
