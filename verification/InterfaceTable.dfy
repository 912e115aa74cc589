/** The interface table of libnfnetlink: sixteen circular lists, hashed on the low four bits of
    the interface index and fed by link messages, stand for one map from index to interface. */
module InterfaceTable {
  import opened Wrappers
  import opened Bytes
  import opened LinkedRing
  import opened AttrWire
  import opened AttrParser
  import opened Messages
  import opened RtnlAttrs

  const BUCKETS: nat := 16
  /** The name of every interface: an asterisk. */
  const STAR: seq<byte> := [0x2a]
  const RTM_NEWLINK := 16
  const RTM_DELLINK := 17
  /** NLMSG_LENGTH of the size of a pointer, which is what the source takes the size of. */
  const LINK_MIN_LEN := 24

  datatype Interface = Interface(iftype: nat, flags: nat, name: seq<byte>)

  type Interfaces = map<nat, Interface>

  /** What a message says about a link; `memory` says whether malloc would succeed. */
  datatype LinkMsg = LinkMsg(msgType: u16, len: nat, index: u32, iftype: nat, flags: nat, ifname: Option<seq<byte>>, memory: bool)

  /** The link message in the bytes of a netlink message: struct ifinfomsg and its attributes. */
  function LinkOf(m: seq<byte>, memory: bool): LinkMsg
    requires |m| >= NLMSG_HDRLEN
  {
    LinkMsg(Le16(m, 4), |m|,
      if |m| >= LINK_MIN_LEN then Le32(m, 20) else 0,
      if |m| >= LINK_ATTRS then Le16(m, 18) else 0,
      if |m| >= LINK_ATTRS then Le32(m, 24) else 0,
      match NameAttr(m) case None => None case Some(a) => Some(CString(a.payload)),
      memory)
  }

  /** The link messages of a received buffer; `memory` gives malloc's answer to each, from `i`. */
  function Links(ms: seq<RawMsg>, memory: nat -> bool, i: nat): seq<LinkMsg>
    requires forall m <- ms :: m.Valid()
  {
    if ms == [] then []
    else
      assert ms[0].Valid();
      [LinkOf(ms[0].bytes, memory(i))] + Links(ms[1..], memory, i + 1)
  }

  // ---------------------------------------------------------------- the map

  /** iftable_add on the map: the return code and the new map. */
  function Add(t: Interfaces, m: LinkMsg): (int, Interfaces) {
    if m.msgType as int != RTM_NEWLINK || m.len < LINK_MIN_LEN || m.ifname.None? then (-1, t)
    else if m.index as nat !in t && !m.memory then (-1, t)
    else (1, t[m.index as nat := Interface(m.iftype, m.flags, m.ifname.value)])
  }

  /** iftable_del on the map. */
  function Del(t: Interfaces, m: LinkMsg): (int, Interfaces) {
    if m.msgType as int != RTM_DELLINK || m.len < LINK_MIN_LEN then (-1, t)
    else if m.index as nat in t then (1, t - {m.index as nat})
    else (0, t)
  }

  /** rtnl_receive on the map: link messages are applied in order until a DONE or an ERROR. */
  function Feed(t: Interfaces, ms: seq<LinkMsg>): (int, Interfaces)
    decreases |ms|
  {
    if ms == [] then (1, t)
    else if ms[0].msgType as int == NLMSG_DONE then (0, t)
    else if ms[0].msgType as int == NLMSG_ERROR then (-1, t)
    else Feed(Handle(t, ms[0]), ms[1..])
  }

  /** call_handler with the two handlers that nlif_open registers. */
  function Handle(t: Interfaces, m: LinkMsg): Interfaces {
    if m.msgType as int == RTM_DELLINK then Del(t, m).1
    else if m.msgType as int == RTM_NEWLINK then Add(t, m).1
    else t
  }

  predicate Stops(m: LinkMsg) { m.msgType as int in [NLMSG_DONE, NLMSG_ERROR] }

  /** The messages before the first DONE or ERROR. */
  function Before(ms: seq<LinkMsg>): seq<LinkMsg> {
    if ms == [] || Stops(ms[0]) then [] else [ms[0]] + Before(ms[1..])
  }

  /** A well-formed link message that says something about an index: a new interface for which
      there is no memory leaves no trace. */
  predicate About(m: LinkMsg, k: nat, present: bool) {
    && m.index as int == k && m.len >= LINK_MIN_LEN
    && (m.msgType as int == RTM_DELLINK || (m.msgType as int == RTM_NEWLINK && m.ifname.Some? && (m.memory || present)))
  }

  /** The last message about an index that was or was not there before. */
  function LastAbout(ms: seq<LinkMsg>, k: nat, present: bool): Option<LinkMsg> {
    if ms == [] then None
    else
      var about := About(ms[0], k, present);
      var last := LastAbout(ms[1..], k, if about then ms[0].msgType as int == RTM_NEWLINK else present);
      if last.None? && about then Some(ms[0]) else last
  }

  /** After any stream of messages the map holds, for every index, what the last message about
      it before a DONE or an ERROR said: its interface after a NEWLINK, nothing after a DELLINK. */
  lemma {:induction false} ReceiveLast(t: Interfaces, ms: seq<LinkMsg>, k: nat)
    ensures var t' := Feed(t, ms).1;
            match LastAbout(Before(ms), k, k in t)
            case None => (k in t' <==> k in t) && (k in t ==> t'[k] == t[k])
            case Some(m) =>
              if m.msgType as int == RTM_DELLINK then k !in t'
              else k in t' && m.ifname.Some? && t'[k] == Interface(m.iftype, m.flags, m.ifname.value)
    decreases |ms|
  {
    if ms != [] && !Stops(ms[0]) {
      var t1 := Handle(t, ms[0]);
      assert Before(ms)[1..] == Before(ms[1..]);
      ReceiveLast(t1, ms[1..], k);
    }
  }

  // ---------------------------------------------------------------- messages laid out

  /** The fields of a link message: struct nlmsghdr and struct ifinfomsg. */
  datatype LinkFields = LinkFields(
    nlFlags: u16, serial: u32, port: u32, family: byte, filler: byte, iftype: u16, index: u32, flags: u32, change: u32)

  /** Both headers of a link message of `len` bytes, field by field. */
  function LinkHead(len: u32, typ: u16, f: LinkFields): (h: seq<byte>)
    ensures |h| == 32
  {
    Bytes32(len) + Bytes16(typ) + Bytes16(f.nlFlags) + Bytes32(f.serial) + Bytes32(f.port)
    + ([f.family, f.filler] + Bytes16(f.iftype) + Bytes32(f.index) + Bytes32(f.flags) + Bytes32(f.change))
  }

  /** A whole link message: both headers, the name attribute with its closing zero, and at most
      three bytes of padding, whatever they are. */
  function LinkBytes(typ: u16, f: LinkFields, name: seq<byte>, padding: seq<byte>): (m: seq<byte>)
    requires |name| < 16 && |padding| < 4
    ensures |m| == 37 + |name| + |padding|
  {
    LinkHead(37 + |name| + |padding|, typ, f) + (Bytes16(5 + |name|) + Bytes16(3) + (name + [0]) + padding)
  }

  lemma HeadFields(len: u32, typ: u16, f: LinkFields, rest: seq<byte>)
    ensures var m := LinkHead(len, typ, f) + rest;
            && Le32(m, 0) == len && Le16(m, 4) == typ
            && Le16(m, 18) == f.iftype && Le32(m, 20) == f.index && Le32(m, 24) == f.flags
  {
    var h := LinkHead(len, typ, f);
    hide Le16, Le32, LinkHead;
    PrefixFields(h, rest, 0);
    PrefixFields(h, rest, 4);
    PrefixFields(h, rest, 18);
    PrefixFields(h, rest, 20);
    PrefixFields(h, rest, 24);
    BareHeadFields(len, typ, f);
  }

  lemma BareHeadFields(len: u32, typ: u16, f: LinkFields)
    ensures var h := LinkHead(len, typ, f);
            && Le32(h, 0) == len && Le16(h, 4) == typ
            && Le16(h, 18) == f.iftype && Le32(h, 20) == f.index && Le32(h, 24) == f.flags
  {
    var h := LinkHead(len, typ, f);
    assert Le32(h, 0) == Le32(Bytes32(len), 0) && Le16(h, 4) == Le16(Bytes16(typ), 0);
    assert Le16(h, 18) == Le16(Bytes16(f.iftype), 0);
    assert Le32(h, 20) == Le32(Bytes32(f.index), 0) && Le32(h, 24) == Le32(Bytes32(f.flags), 0);
  }

  /** The one attribute of a laid-out message. */
  lemma NameLaid(typ: u16, f: LinkFields, name: seq<byte>, padding: seq<byte>)
    requires |name| < 16 && |padding| < 4
    ensures var m := LinkBytes(typ, f, name, padding);
            Attrs(m, 32, |m|) == [RawAttr(32, 3, name + [0])]
  {
    var m := LinkBytes(typ, f, name, padding);
    var head := LinkHead(37 + |name| + |padding|, typ, f);
    var attr := Bytes16(5 + |name|) + Bytes16(3) + (name + [0]);
    hide LinkHead, Attrs;
    assert m == head + Bytes16(5 + |name|) + (Bytes16(3) + (name + [0]) + padding);
    FieldAt16(head, 5 + |name|, Bytes16(3) + (name + [0]) + padding);
    assert m == (head + Bytes16(5 + |name|)) + Bytes16(3) + ((name + [0]) + padding);
    FieldAt16(head + Bytes16(5 + |name|), 3, (name + [0]) + padding);
    assert m[36..37 + |name|] == name + [0];
    AttrsCons(m, 32, |m|);
    AttrsCons(m, 32 + Align(5 + |name|), |m|);
  }

  lemma {:induction false} CStringOf(name: seq<byte>)
    requires 0 !in name
    ensures CString(name + [0]) == name
    decreases |name|
  {
    if name != [] {
      assert (name + [0])[0] == name[0] && (name + [0])[1..] == name[1..] + [0];
      CStringOf(name[1..]);
    }
  }

  /** A laid-out message is decoded as what was laid out, and its name fits. */
  lemma LinkLaid(typ: u16, f: LinkFields, name: seq<byte>, padding: seq<byte>, memory: bool)
    requires |name| < 16 && 0 !in name && |padding| < 4
    ensures var m := LinkBytes(typ, f, name, padding);
            && LinkOf(m, memory) == LinkMsg(typ, |m|, f.index, f.iftype as nat, f.flags as nat, Some(name), memory)
            && NameFits(m) && NamesFit(m) && Msgs(m, 0, |m|) == [RawMsg(0, m)]
  {
    var m := LinkBytes(typ, f, name, padding);
    var a := RawAttr(32, 3, name + [0]);
    NameLaid(typ, f, name, padding);
    HeadFields(|m|, typ, f, Bytes16(5 + |name|) + Bytes16(3) + (name + [0]) + padding);
    CStringOf(name);
    hide LinkHead, LinkBytes, Attrs, Msgs, Le16, Le32, CString, Last;
    SoleAttr(a);
    assert NameAttr(m) == Some(a);
    OneMsg(m);
    assert (name + [0])[|name|] == 0;
  }

  lemma SoleAttr(a: RawAttr)
    requires a.field as int == 3
    ensures Last([a], 0x1_0000, 3) == Some(a)
  {
  }

  /** What a laid-out NEWLINK or DELLINK does to the map. */
  lemma LaidEffect(t: Interfaces, typ: u16, f: LinkFields, name: seq<byte>, padding: seq<byte>, memory: nat -> bool)
    requires |name| < 16 && 0 !in name && |padding| < 4
    ensures var m := LinkBytes(typ, f, name, padding);
            var (ret, t') := Feed(t, Links(Msgs(m, 0, |m|), memory, 0));
            && (typ == 16 && (memory(0) || f.index as nat in t) ==>
                  ret == 1 && t' == t[f.index as nat := Interface(f.iftype as nat, f.flags as nat, name)])
            && (typ == 17 ==> ret == 1 && t' == t - {f.index as nat})
            && (typ == 3 ==> ret == 0 && t' == t) && (typ == 2 ==> ret == -1 && t' == t)
            && (typ as int !in [2, 3, 16, 17] ==> ret == 1 && t' == t)
  {
    var m := LinkBytes(typ, f, name, padding);
    LinkLaid(typ, f, name, padding, memory(0));
    hide LinkBytes, LinkOf, Msgs, NameFits, NamesFit;
    LinksCons(RawMsg(0, m), [], memory, 0);
    assert [RawMsg(0, m)] + [] == [RawMsg(0, m)];
    assert Links([], memory, 1) == [];
    FeedCons(t, LinkOf(m, memory(0)), []);
  }

  // ---------------------------------------------------------------- many buffers

  predicate NamesFit(s: seq<byte>) { forall m <- Msgs(s, 0, |s|) :: NameFits(m.bytes) }

  /** The map after a list of received buffers; `memory` gives malloc's answers, buffer by buffer. */
  function FeedAll(t: Interfaces, bufs: seq<seq<byte>>, memory: nat -> nat -> bool, b: nat): Interfaces
    decreases |bufs|
  {
    if bufs == [] then t
    else FeedAll(Feed(t, Links(Msgs(bufs[0], 0, |bufs[0]|), memory(b), 0)).1, bufs[1..], memory, b + 1)
  }

  /** The messages that take effect: those of every buffer before its first DONE or ERROR. */
  function AllLinks(bufs: seq<seq<byte>>, memory: nat -> nat -> bool, b: nat): seq<LinkMsg>
    decreases |bufs|
  {
    if bufs == [] then []
    else Before(Links(Msgs(bufs[0], 0, |bufs[0]|), memory(b), 0)) + AllLinks(bufs[1..], memory, b + 1)
  }

  lemma {:induction false} FeedBefore(t: Interfaces, ms: seq<LinkMsg>)
    ensures Feed(t, ms).1 == Feed(t, Before(ms)).1
    decreases |ms|
  {
    if ms != [] && !Stops(ms[0]) {
      assert Before(ms)[1..] == Before(ms[1..]);
      FeedBefore(Handle(t, ms[0]), ms[1..]);
    }
  }

  lemma {:induction false} FeedConcat(t: Interfaces, a: seq<LinkMsg>, b: seq<LinkMsg>)
    requires Before(a) == a
    ensures Feed(t, a + b).1 == Feed(Feed(t, a).1, b).1 && Before(a + b) == a + Before(b)
    decreases |a|
  {
    if a == [] {
      assert a + b == b && [] + Before(b) == Before(b);
    } else {
      assert (a + b)[0] == a[0] && (a + b)[1..] == a[1..] + b;
      assert !Stops(a[0]) && Before(a[1..]) == a[1..];
      FeedConcat(Handle(t, a[0]), a[1..], b);
      assert [a[0]] + (a[1..] + Before(b)) == a + Before(b);
    }
  }

  lemma {:induction false} BeforeTwice(ms: seq<LinkMsg>)
    ensures Before(Before(ms)) == Before(ms)
    decreases |ms|
  {
    if ms != [] && !Stops(ms[0]) {
      assert Before(ms)[1..] == Before(ms[1..]);
      BeforeTwice(ms[1..]);
    }
  }

  lemma {:induction false} FeedAllLinks(t: Interfaces, bufs: seq<seq<byte>>, memory: nat -> nat -> bool, b: nat)
    ensures FeedAll(t, bufs, memory, b) == Feed(t, AllLinks(bufs, memory, b)).1
    ensures Before(AllLinks(bufs, memory, b)) == AllLinks(bufs, memory, b)
    decreases |bufs|
  {
    hide Links, Feed, Before;
    if bufs == [] {
      NothingFed(t);
    } else {
      var ms := Links(Msgs(bufs[0], 0, |bufs[0]|), memory(b), 0);
      FeedAllLinks(Feed(t, ms).1, bufs[1..], memory, b + 1);
      FeedBefore(t, ms);
      BeforeTwice(ms);
      FeedConcat(t, Before(ms), AllLinks(bufs[1..], memory, b + 1));
    }
  }

  lemma NothingFed(t: Interfaces)
    ensures Feed(t, []).1 == t && Before([]) == []
  {
  }

  /** After any list of received buffers the map holds, for every index, what the last message
      about it that took effect said. */
  lemma FeedAllLast(t: Interfaces, bufs: seq<seq<byte>>, memory: nat -> nat -> bool, k: nat)
    ensures var t' := FeedAll(t, bufs, memory, 0);
            match LastAbout(AllLinks(bufs, memory, 0), k, k in t)
            case None => (k in t' <==> k in t) && (k in t ==> t'[k] == t[k])
            case Some(m) =>
              if m.msgType as int == RTM_DELLINK then k !in t'
              else k in t' && m.ifname.Some? && t'[k] == Interface(m.iftype, m.flags, m.ifname.value)
  {
    hide Feed, Before, LastAbout, AllLinks, FeedAll;
    FeedAllLinks(t, bufs, memory, 0);
    ReceiveLast(t, AllLinks(bufs, memory, 0), k);
  }

  // ---------------------------------------------------------------- one buffer

  /** What one message of the buffer does to the rest of the run. */
  lemma LinkStep(t: Interfaces, s: seq<byte>, pos: nat, memory: nat -> bool, i: nat)
    requires MsgAt(s, pos, |s|)
    ensures var bytes, rest := s[pos..pos + Le32(s, pos) as nat], Msgs(s, After(s, pos), |s|);
            && Le16(bytes, 4) == LinkOf(bytes, memory(i)).msgType
            && RawMsg(pos, bytes) in Msgs(s, pos, |s|)
            && (forall m <- rest :: m in Msgs(s, pos, |s|))
            && Feed(t, Links(Msgs(s, pos, |s|), memory, i)) ==
               if Le16(bytes, 4) as int == NLMSG_DONE then (0, t)
               else if Le16(bytes, 4) as int == NLMSG_ERROR then (-1, t)
               else Feed(Handle(t, LinkOf(bytes, memory(i))), Links(rest, memory, i + 1))
  {
    hide Msgs, Handle;
    MsgsCons(s, pos, |s|);
    var m, rest := MsgFrom(s, pos, |s|), Msgs(s, After(s, pos), |s|);
    assert ([m] + rest)[0] == m && ([m] + rest)[1..] == rest;
    LinksCons(m, rest, memory, i);
    FeedCons(t, LinkOf(m.bytes, memory(i)), Links(rest, memory, i + 1));
  }

  lemma LinksCons(m: RawMsg, rest: seq<RawMsg>, memory: nat -> bool, i: nat)
    requires m.Valid() && forall r <- rest :: r.Valid()
    ensures Links([m] + rest, memory, i) == [LinkOf(m.bytes, memory(i))] + Links(rest, memory, i + 1)
  {
    assert ([m] + rest)[0] == m && ([m] + rest)[1..] == rest;
  }

  lemma FeedCons(t: Interfaces, m: LinkMsg, rest: seq<LinkMsg>)
    ensures Feed(t, [m] + rest) ==
            if m.msgType as int == NLMSG_DONE then (0, t)
            else if m.msgType as int == NLMSG_ERROR then (-1, t)
            else Feed(Handle(t, m), rest)
  {
    assert ([m] + rest)[0] == m && ([m] + rest)[1..] == rest;
  }

  lemma LinksEnd(t: Interfaces, s: seq<byte>, pos: nat, memory: nat -> bool, i: nat)
    requires !MsgAt(s, pos, |s|)
    ensures Feed(t, Links(Msgs(s, pos, |s|), memory, i)) == (1, t)
  {
  }

  // ---------------------------------------------------------------- the lists

  ghost function Held(x: Link): Interface
    reads x
  {
    Interface(x.iftype, x.flags, x.name)
  }

  /** The entries of a bucket are exactly the interfaces of the map that hash to it, one each. */
  ghost predicate Lists(ring: seq<Link>, b: nat, t: Interfaces)
    reads ring
  {
    && (forall i :: 1 <= i < |ring| ==> ring[i].index % BUCKETS == b && ring[i].index in t && t[ring[i].index] == Held(ring[i]))
    && (forall i, j :: 1 <= i < j < |ring| ==> ring[i].index != ring[j].index)
    && (forall k :: k in t && k % BUCKETS == b ==> exists i :: 1 <= i < |ring| && ring[i].index == k)
  }

  ghost predicate Bucket(ring: seq<Link>, head: Link, b: nat, t: Interfaces)
    reads ring
  {
    Ring(ring) && ring[0] == head && Lists(ring, b, t)
  }

  /** A change to one key leaves the other buckets right. */
  lemma OtherBucket(ring: seq<Link>, b: nat, t: Interfaces, t': Interfaces, key: nat)
    requires Lists(ring, b, t) && key % BUCKETS != b
    requires forall k :: k != key ==> (k in t' <==> k in t) && (k in t' ==> t'[k] == t[k])
    ensures Lists(ring, b, t')
  {
  }

  /** Every link of a list is owned by that list, so no link is in two lists. */
  ghost predicate Placed(rings: seq<seq<Link>>, owner: map<Link, nat>) {
    && |rings| == BUCKETS
    && forall b, i :: 0 <= b < BUCKETS && 0 <= i < |rings[b]| ==> rings[b][i] in owner && owner[rings[b][i]] == b
  }

  ghost predicate Buckets(rings: seq<seq<Link>>, heads: seq<Link>, owner: map<Link, nat>, t: Interfaces)
    requires Placed(rings, owner) && |heads| == BUCKETS
    reads owner.Keys
  {
    forall b :: 0 <= b < BUCKETS ==> Bucket(rings[b], heads[b], b, t)
  }

  /** The ghost state of a handle: its lists, their sentinels, who owns a link, and the map. */
  datatype View = View(rings: seq<seq<Link>>, heads: seq<Link>, owner: map<Link, nat>, table: Interfaces) {
    ghost predicate Shaped() { Placed(rings, owner) && |heads| == BUCKETS }

    ghost predicate Right()
      requires Shaped()
      reads owner.Keys
    {
      Buckets(rings, heads, owner, table)
    }
  }

  class NlifHandle {
    const hash: seq<Link>
    /** LIST_POISON1 and LIST_POISON2: no list ever holds them. */
    const poison1: Link
    const poison2: Link
    ghost var rings: seq<seq<Link>>
    ghost var table: Interfaces
    ghost var owner: map<Link, nat>
    ghost var repr: set<Link>

    ghost function Now(): View
      reads this
    {
      View(rings, hash, owner, table)
    }

    ghost predicate Valid()
      reads this, repr
    {
      repr == owner.Keys && Now().Shaped() && Now().Right()
    }

    /** The set-up of nlif_open: every list is empty. */
    constructor ()
      ensures Valid() && fresh(repr) && table == map[]
    {
      hide Bucket, Lists, Ring;
      var heads := EmptyHeads();
      poison1 := new Link();
      poison2 := new Link();
      ghost var singles, owned := Singles(heads);
      hash, rings, table := heads, singles, map[];
      owner, repr := owned, owned.Keys;
    }

    /** Sixteen self-linked heads are sixteen empty buckets. */
    static lemma Singles(heads: seq<Link>) returns (rings: seq<seq<Link>>, owned: map<Link, nat>)
      requires |heads| == BUCKETS && forall b :: 0 <= b < BUCKETS ==> heads[b].next == heads[b].prev == heads[b]
      requires forall b, c :: 0 <= b < c < BUCKETS ==> heads[b] != heads[c]
      ensures Placed(rings, owned) && Buckets(rings, heads, owned, map[])
      ensures owned.Keys == set x | x in heads
    {
      rings := seq(BUCKETS, b requires 0 <= b < BUCKETS => [heads[b]]);
      owned := map b | 0 <= b < BUCKETS :: heads[b] := b;
      forall b | 0 <= b < BUCKETS
        ensures Bucket(rings[b], heads[b], b, map[])
      {
        EmptyBucket(heads[b], b);
      }
    }

    static lemma EmptyBucket(h: Link, b: nat)
      requires h.next == h.prev == h
      ensures Bucket([h], h, b, map[])
    {
    }

    static method EmptyHeads() returns (heads: seq<Link>)
      ensures |heads| == BUCKETS && fresh(set x | x in heads)
      ensures forall b :: 0 <= b < BUCKETS ==> heads[b].next == heads[b].prev == heads[b]
      ensures forall b, c :: 0 <= b < c < BUCKETS ==> heads[b] != heads[c]
    {
      heads := [];
      while |heads| < BUCKETS
        invariant |heads| <= BUCKETS && fresh(set x | x in heads)
        invariant forall b :: 0 <= b < |heads| ==> heads[b].next == heads[b].prev == heads[b]
        invariant forall b, c :: 0 <= b < c < |heads| ==> heads[b] != heads[c]
      {
        var h := new Link();
        heads := heads + [h];
      }
    }

    /** list_for_each_entry over a bucket, stopping at the index. */
    method Find(index: nat) returns (found: bool, entry: Link, ghost at: nat)
      requires Valid()
      ensures found <==> index in table
      ensures found ==> 1 <= at < |rings[index % BUCKETS]| && entry == rings[index % BUCKETS][at] && entry.index == index
    {
      var b := index % BUCKETS;
      ghost var ring := rings[b];
      entry := hash[b].next;
      at := 1;
      while entry != hash[b]
        invariant 1 <= at <= |ring| && entry == (if at < |ring| then ring[at] else ring[0])
        invariant forall i :: 1 <= i < at ==> ring[i].index != index
        decreases |ring| - at
      {
        if entry.index == index {
          return true, entry, at;
        }
        entry := entry.next;
        at := at + 1;
      }
      found := false;
    }

    /** The field stores of iftable_add. */
    static method Fill(entry: Link, iface: Interface)
      modifies entry`iftype, entry`flags, entry`name
      ensures Held(entry) == iface
    {
      entry.iftype := iface.iftype;
      entry.flags := iface.flags;
      entry.name := iface.name;
    }

    /** The field stores of iftable_add on an entry that was found. */
    method Overwrite(entry: Link, ghost at: nat, ghost key: nat, iface: Interface)
      requires Valid() && 1 <= at < |rings[key % BUCKETS]| && entry == rings[key % BUCKETS][at] && entry.index == key
      modifies this`table, entry`iftype, entry`flags, entry`name
      ensures Valid() && table == old(table)[key := iface]
    {
      hide Bucket;
      ghost var was := Now();
      table := table[key := iface];
      Fill(entry, iface);
      Overwritten(was, table, at, key, iface);
    }

    /** The search of iftable_add, and the stores when it finds an entry. */
    method Update(index: nat, iface: Interface) returns (found: bool)
      requires Valid()
      modifies this`table, repr`iftype, repr`flags, repr`name
      ensures Valid() && found == (index in old(table))
      ensures found ==> table == old(table)[index := iface]
      ensures !found ==> table == old(table)
    {
      hide Bucket;
      var entry;
      ghost var at;
      found, entry, at := Find(index);
      if found {
        Overwrite(entry, at, index, iface);
      }
    }

    /** The insertion of iftable_add for an entry that was not found. */
    method AddEntry(entry: Link, ghost iface: Interface)
      requires Valid() && entry !in repr && entry.index !in table && Held(entry) == iface
      modifies this, entry`next, entry`prev, repr`next, repr`prev
      ensures Valid() && repr == old(repr) + {entry} && table == old(table)[entry.index := iface]
    {
      hide Lists, Ring, InsertAt, RemoveAt;
      var b := entry.index % BUCKETS;
      ghost var was := Now();
      FirstEntry(b);
      rings := rings[b := InsertAt(rings[b], 1, entry)];
      owner := owner[entry := b];
      table := table[entry.index := iface];
      repr := repr + {entry};
      ListAdd(entry, hash[b], was.rings[b]);
      Inserted(was, Now(), b, entry);
    }

    /** iftable_add */
    method IftableAdd(m: seq<byte>, memory: bool) returns (ret: int)
      requires Valid() && |m| >= NLMSG_HDRLEN && NameFits(m)
      modifies this, repr
      ensures Valid() && fresh(repr - old(repr))
      ensures ret == Add(old(table), LinkOf(m, memory)).0 && table == Add(old(table), LinkOf(m, memory)).1
      ensures ret == if Le16(m, 4) as int == 16 && |m| >= 24 && NameAttr(m).Some? && (Le32(m, 20) as nat in old(table) || memory) then 1 else -1
    {
      ret := -1;
      if Le16(m, 4) as int == RTM_NEWLINK && |m| >= LINK_MIN_LEN {
        var stale: Option<RawAttr> := *;
        var _, cb := ParseRtattr(m, IFLA_MAX, stale, LINK_ATTRS);
        NameFound(m, cb, stale);
        if IFLA_IFNAME in cb {
          var index, iface := Le32(m, 20), Interface(Le16(m, 18), Le32(m, 24), CString(cb[IFLA_IFNAME].payload));
          var found := Update(index, iface);
          if found {
            ret := 1;
          } else if memory {
            NewEntry(index, iface);
            ret := 1;
          }
        }
      }
    }

    static lemma NameFound(m: seq<byte>, cb: Table, stale: Option<RawAttr>)
      requires RtTable(cb, Attrs(m, LINK_ATTRS, |m|), IFLA_MAX, stale)
      ensures Slot(cb, IFLA_IFNAME) == NameAttr(m) && (NameAttr(m).Some? ==> |m| >= LINK_ATTRS)
    {
      assert Slot(cb, IFLA_IFNAME) == NameAttr(m);
      NameRoom(m);
    }

    /** The allocation and filling of a new entry. */
    method NewEntry(index: nat, iface: Interface)
      requires Valid() && index !in table
      modifies this, repr
      ensures Valid() && fresh(repr - old(repr)) && table == old(table)[index := iface]
    {
      var entry := new Link();
      entry.index := index;
      Fill(entry, iface);
      AddEntry(entry, iface);
    }

    /** Unlinking an entry from its bucket; the entry itself is then freed. */
    method DelEntry(entry: Link, ghost at: nat, key: nat)
      requires Valid() && 1 <= at < |rings[key % BUCKETS]| && entry == rings[key % BUCKETS][at] && entry.index == key
      modifies this`rings, this`table, repr`next, repr`prev
      ensures Valid() && table == old(table) - {key}
      ensures rings == old(rings)[key % BUCKETS := RemoveAt(old(rings)[key % BUCKETS], at)]
    {
      ghost var b, was := key % BUCKETS, Now();
      hide Lists, Ring, InsertAt, RemoveAt;
      assert Bucket(rings[b], hash[b], b, table);
      rings := rings[b := RemoveAt(rings[b], at)];
      table := table - {key};
      ListDel(entry, poison1, poison2, was.rings[b], at);
      Removed(was, Now(), b, at, key);
    }

    /** iftable_del */
    method IftableDel(m: seq<byte>) returns (ret: int)
      requires Valid() && |m| >= NLMSG_HDRLEN
      modifies this`rings, this`table, repr
      ensures Valid()
      ensures forall memory :: ret == Del(old(table), LinkOf(m, memory)).0 && table == Del(old(table), LinkOf(m, memory)).1
      ensures ret == if Le16(m, 4) as int != 17 || |m| < 24 then -1 else if Le32(m, 20) as nat in old(table) then 1 else 0
    {
      ret := -1;
      if Le16(m, 4) as int == RTM_DELLINK && |m| >= LINK_MIN_LEN {
        var stale: Option<RawAttr> := *;
        var _, _ := ParseRtattr(m, IFLA_MAX, stale, LINK_ATTRS);
        var index := Le32(m, 20);
        var found, entry, at := Find(index);
        ret := 0;
        if found {
          DelEntry(entry, at, index);
          ret := 1;
        }
      }
    }

    /** The message loop of rtnl_receive over the bytes that recvmsg delivered, with the two
        handlers that nlif_open registers. */
    method RtnlReceive(s: seq<byte>, memory: nat -> bool) returns (status: int)
      requires Valid() && NamesFit(s)
      modifies this, repr
      ensures Valid() && fresh(repr - old(repr))
      ensures status == Feed(old(table), Links(Msgs(s, 0, |s|), memory, 0)).0
      ensures table == Feed(old(table), Links(Msgs(s, 0, |s|), memory, 0)).1
    {
      hide Msgs, Links, Feed, LinkOf, NameFits;
      ghost var goal := Feed(table, Links(Msgs(s, 0, |s|), memory, 0));
      var pos, len, i: nat := 0, |s| as int, 0;
      while len >= NLMSG_HDRLEN && Le32(s, pos) as int >= NLMSG_HDRLEN && Le32(s, pos) as int <= len
        invariant len == |s| - pos && Valid() && fresh(repr - old(repr))
        invariant forall m <- Msgs(s, pos, |s|) :: NameFits(m.bytes)
        invariant Feed(table, Links(Msgs(s, pos, |s|), memory, i)) == goal
        decreases len
      {
        var m := s[pos..pos + Le32(s, pos) as nat];
        LinkStep(table, s, pos, memory, i);
        if Le16(m, 4) as int == NLMSG_DONE {
          return 0;
        }
        if Le16(m, 4) as int == NLMSG_ERROR {
          return -1;
        }
        CallHandler(m, memory(i));
        len := len - Align(Le32(s, pos));
        pos := After(s, pos);
        i := i + 1;
      }
      LinksEnd(table, s, pos, memory, i);
      status := 1;
    }

    /** call_handler */
    method CallHandler(m: seq<byte>, memory: bool)
      requires Valid() && |m| >= NLMSG_HDRLEN && NameFits(m)
      modifies this, repr
      ensures Valid() && fresh(repr - old(repr))
      ensures table == Handle(old(table), LinkOf(m, memory))
    {
      if Le16(m, 4) as int == RTM_DELLINK {
        var _ := IftableDel(m);
      } else if Le16(m, 4) as int == RTM_NEWLINK {
        var _ := IftableAdd(m, memory);
      }
    }

    /** A whole session: a new table, any list of received buffers, then a question about an
        index, answered by the last message about it that took effect. */
    static method Session(bufs: seq<seq<byte>>, memory: nat -> nat -> bool, index: nat) returns (ret: int, name: seq<byte>)
      requires index != 0 && forall s <- bufs :: NamesFit(s)
      ensures match LastAbout(AllLinks(bufs, memory, 0), index, false)
              case None => ret == -1
              case Some(m) =>
                if m.msgType as int == RTM_DELLINK then ret == -1
                else ret == 1 && m.ifname.Some? && name == m.ifname.value
    {
      hide Links, Feed, LastAbout, AllLinks, NamesFit;
      var h := new NlifHandle();
      var b := 0;
      while b < |bufs|
        invariant 0 <= b <= |bufs| && h.Valid() && fresh(h) && fresh(h.repr)
        invariant FeedAll(h.table, bufs[b..], memory, b) == FeedAll(map[], bufs, memory, 0)
      {
        assert bufs[b..][0] == bufs[b] && bufs[b..][1..] == bufs[b + 1..];
        var _ := h.RtnlReceive(bufs[b], memory(b));
        b := b + 1;
      }
      FeedAllLast(map[], bufs, memory, index);
      ret, name := h.Index2Name(index);
    }

    /** Receiving a NEWLINK, laid out field by field: the flags and the name that are then looked
        up are those of the message, and the type is stored. */
    method Announce(f: LinkFields, name: seq<byte>, padding: seq<byte>, memory: nat -> bool)
        returns (status: int, ret: int, flags: nat, ret': int, name': seq<byte>)
      requires Valid() && f.index != 0 && |name| < 16 && 0 !in name && |padding| < 4
      requires memory(0) || f.index as nat in table
      modifies this, repr
      ensures Valid() && fresh(repr - old(repr))
      ensures status == 1 && ret == 1 && flags == f.flags as nat && ret' == 1 && name' == name
      ensures f.index as nat in table && table[f.index as nat].iftype == f.iftype as nat
      ensures forall k :: k != f.index as nat ==> (k in table <==> k in old(table)) && (k in table ==> table[k] == old(table)[k])
    {
      LinkLaid(16, f, name, padding, memory(0));
      LaidEffect(table, 16, f, name, padding, memory);
      hide LinkBytes, Links, Feed, Msgs, NamesFit;
      status := RtnlReceive(LinkBytes(16, f, name, padding), memory);
      ret, flags := GetIfFlags(f.index);
      ret', name' := Index2Name(f.index);
    }

    /** Receiving a DELLINK, laid out field by field: its index, and no other, is gone. */
    method Withdraw(f: LinkFields, name: seq<byte>, padding: seq<byte>, memory: nat -> bool)
        returns (status: int, ret: int, flags: nat)
      requires Valid() && |name| < 16 && 0 !in name && |padding| < 4
      modifies this, repr
      ensures Valid() && fresh(repr - old(repr))
      ensures status == 1 && ret == -1 && table == old(table) - {f.index as nat}
    {
      LinkLaid(17, f, name, padding, memory(0));
      LaidEffect(table, 17, f, name, padding, memory);
      hide LinkBytes, Links, Feed, Msgs, NamesFit;
      status := RtnlReceive(LinkBytes(17, f, name, padding), memory);
      ret, flags := GetIfFlags(f.index);
    }

    /** nlif_index2name */
    method Index2Name(index: nat) returns (ret: int, name: seq<byte>)
      requires Valid()
      ensures index == 0 ==> ret == 1 && name == STAR
      ensures index != 0 ==> if index in table then ret == 1 && name == table[index].name else ret == -1
    {
      name := [];
      if index == 0 {
        return 1, STAR;
      }
      var found, entry, at := Find(index);
      if found {
        HeldAt(index, at);
        return 1, entry.name;
      }
      ret := -1;
    }

    /** nlif_get_ifflags */
    method GetIfFlags(index: nat) returns (ret: int, flags: nat)
      requires Valid()
      ensures ret == 1 <==> index != 0 && index in table
      ensures ret == 1 ==> flags == table[index].flags
      ensures ret == 1 || ret == -1
    {
      flags := 0;
      if index == 0 {
        return -1, 0;
      }
      var found, entry, at := Find(index);
      if found {
        HeldAt(index, at);
        return 1, entry.flags;
      }
      ret := -1;
    }

    /** The entries of list `b` are those whose index ends in the four bits `b`. */
    lemma Hashed(b: nat, i: nat)
      requires Valid() && b < |hash| && 1 <= i < |rings[b]|
      ensures |hash| == 16 && rings[b][i].index % 16 == b && rings[b][i].index in table && table[rings[b][i].index] == Held(rings[b][i])
    {
      assert Bucket(rings[b], hash[b], b, table);
    }

    lemma HeldAt(index: nat, at: nat)
      requires Valid() && 1 <= at < |rings[index % BUCKETS]| && rings[index % BUCKETS][at].index == index
      ensures index in table && table[index] == Held(rings[index % BUCKETS][at])
    {
      assert Bucket(rings[index % BUCKETS], hash[index % BUCKETS], index % BUCKETS, table);
    }

    /** The clearing loops of nlif_close. */
    method Clear()
      requires Valid()
      modifies this`rings, this`table, repr
      ensures Valid() && table == map[] && forall b :: 0 <= b < BUCKETS ==> hash[b].next == hash[b].prev == hash[b]
    {
      hide Bucket;
      var b := 0;
      while b < BUCKETS
        invariant 0 <= b <= BUCKETS && Valid()
        invariant forall c :: 0 <= c < b ==> rings[c] == [hash[c]]
      {
        ClearBucket(b);
        b := b + 1;
      }
      AllEmpty();
    }

    /** When only the sentinels are left, they link to themselves and the map is empty. */
    lemma AllEmpty()
      requires Valid() && forall c :: 0 <= c < BUCKETS ==> rings[c] == [hash[c]]
      ensures table == map[] && forall b :: 0 <= b < BUCKETS ==> hash[b].next == hash[b].prev == hash[b]
    {
      forall c | 0 <= c < BUCKETS
        ensures hash[c].next == hash[c].prev == hash[c]
      {
        assert Bucket(rings[c], hash[c], c, table);
        assert rings[c][0].next == rings[c][Succ(0, 1)] && rings[c][0].prev == rings[c][Pred(0, 1)];
      }
      forall k: nat
        ensures k !in table
      {
        assert Bucket(rings[k % BUCKETS], hash[k % BUCKETS], k % BUCKETS, table);
      }
    }

    /** One round of list_for_each_entry_safe with list_del: the next entry is read first. */
    method DelFirst(b: nat, entry: Link) returns (next: Link)
      requires Valid() && b < BUCKETS && |rings[b]| > 1 && entry == rings[b][1]
      modifies this`rings, this`table, repr`next, repr`prev
      ensures Valid() && rings == old(rings)[b := [hash[b]] + old(rings)[b][2..]]
      ensures next == if |rings[b]| > 1 then rings[b][1] else hash[b]
    {
      hide Bucket;
      next := entry.next;
      SecondEntry(b);
      assert RemoveAt(rings[b], 1) == [hash[b]] + rings[b][2..];
      DelEntry(entry, 1, entry.index);
    }

    method ClearBucket(b: nat)
      requires Valid() && b < BUCKETS
      modifies this`rings, this`table, repr
      ensures Valid() && rings == old(rings)[b := [hash[b]]]
    {
      hide Bucket;
      ghost var rings0, ring := rings, rings[b];
      var entry := hash[b].next;
      UpdateTwice(rings0, b, ring, ring);
      while entry != hash[b]
        invariant Valid() && rings == rings0[b := ring]
        invariant entry == hash[b].next
        decreases |ring|
      {
        FirstEntry(b);
        entry := DelFirst(b, entry);
        FirstEntry(b);
        UpdateTwice(rings0, b, ring, rings[b]);
        ring := rings[b];
      }
      FirstEntry(b);
    }

    static lemma UpdateTwice<T>(s: seq<T>, b: nat, x: T, y: T)
      requires b < |s|
      ensures s[b := x][b := y] == s[b := y] && (x == s[b] ==> s[b := x] == s)
    {
    }

    /** An entry of a bucket knows its key, and the first links on to the second. */
    lemma SecondEntry(b: nat)
      requires Valid() && b < BUCKETS && |rings[b]| > 1
      ensures rings[b][0] == hash[b] && rings[b][1].index % BUCKETS == b
      ensures rings[b][1].next == if |rings[b]| > 2 then rings[b][2] else hash[b]
    {
      assert Bucket(rings[b], hash[b], b, table);
      assert rings[b][1].next == rings[b][Succ(1, |rings[b]|)];
    }

    /** The link after a sentinel is the first entry, or the sentinel when there is none. */
    lemma FirstEntry(b: nat)
      requires Valid() && b < BUCKETS
      ensures rings[b] != [] && rings[b][0] == hash[b] && Ring(rings[b])
      ensures if |rings[b]| > 1 then hash[b].next == rings[b][1] != hash[b] else hash[b].next == hash[b] && rings[b] == [hash[b]]
    {
      assert Bucket(rings[b], hash[b], b, table);
    }
  }

  lemma PlacedAdd(rings: seq<seq<Link>>, owner: map<Link, nat>, b: nat, entry: Link)
    requires Placed(rings, owner) && b < BUCKETS && rings[b] != [] && entry !in owner
    ensures Placed(rings[b := InsertAt(rings[b], 1, entry)], owner[entry := b])
  {
  }

  /** Buckets whose links and entries were not touched, when a key of bucket `b` changed. */
  twostate lemma OthersKept(v: View, new b: nat, new t: Interfaces, new key: nat)
    requires v.Shaped() && old(v.Right()) && b < BUCKETS && key % BUCKETS == b
    requires forall x :: x in v.owner && v.owner[x] != b ==> unchanged(x)
    requires forall k :: k != key ==> (k in t <==> k in v.table) && (k in t ==> t[k] == v.table[k])
    ensures forall c :: 0 <= c < BUCKETS && c != b ==> Bucket(v.rings[c], v.heads[c], c, t)
  {
    forall c | 0 <= c < BUCKETS && c != b
      ensures Bucket(v.rings[c], v.heads[c], c, t)
    {
      assert old(Bucket(v.rings[c], v.heads[c], c, v.table));
      OtherKept(v.rings[c], c, v.table, t, key);
    }
  }

  twostate lemma OtherKept(ring: seq<Link>, new b: nat, new t: Interfaces, new t': Interfaces, new key: nat)
    requires ring != [] && old(Bucket(ring, ring[0], b, t)) && key % BUCKETS != b && unchanged(ring)
    requires forall k :: k != key ==> (k in t' <==> k in t) && (k in t' ==> t'[k] == t[k])
    ensures Bucket(ring, ring[0], b, t')
  {
    OtherBucket(ring, b, t, t', key);
  }

  /** An entry whose place in its list and whose index did not change. */
  twostate predicate SameLinks(x: Link, new key: nat)
    reads x
  {
    x.next == old(x.next) && x.prev == old(x.prev) && x.index == old(x.index) && x.index == key
  }

  /** The buckets after an entry was overwritten in place. */
  twostate lemma Overwritten(v: View, new t: Interfaces, new at: nat, new key: nat, new iface: Interface)
    requires v.Shaped() && old(v.Right())
    requires 1 <= at < |v.rings[key % BUCKETS]| && t == v.table[key := iface]
    requires forall x :: x in v.owner && x != v.rings[key % BUCKETS][at] ==> unchanged(x)
    requires SameLinks(v.rings[key % BUCKETS][at], key) && Held(v.rings[key % BUCKETS][at]) == iface
    ensures Buckets(v.rings, v.heads, v.owner, t)
  {
    var b := key % BUCKETS;
    assert old(Bucket(v.rings[b], v.heads[b], b, v.table));
    OthersKept(v, b, t, key);
    OneOverwritten(v.rings[b], b, v.table, at, key, iface);
  }

  twostate lemma OneOverwritten(ring: seq<Link>, new b: nat, new t: Interfaces, new at: nat, new key: nat, new iface: Interface)
    requires 1 <= at < |ring| && old(Bucket(ring, ring[0], b, t))
    requires forall i :: 0 <= i < |ring| && i != at ==> unchanged(ring[i])
    requires SameLinks(ring[at], key) && Held(ring[at]) == iface
    ensures Bucket(ring, ring[0], b, t[key := iface])
  {
    RingKept(ring);
    ListsOverwritten(ring, b, t, at, key, iface);
  }

  /** A ring depends on the links only. */
  twostate lemma RingKept(ring: seq<Link>)
    requires old(Ring(ring)) && unchanged(ring`next) && unchanged(ring`prev)
    ensures Ring(ring)
  {
  }

  twostate lemma ListsOverwritten(ring: seq<Link>, new b: nat, new t: Interfaces, new at: nat, new key: nat, new iface: Interface)
    requires 1 <= at < |ring| && old(Lists(ring, b, t)) && unchanged(ring`index)
    requires forall i :: 0 <= i < |ring| && i != at ==> unchanged(ring[i])
    requires ring[at].index == key && Held(ring[at]) == iface
    ensures Lists(ring, b, t[key := iface])
  {
    forall k | k in t[key := iface] && k % BUCKETS == b
      ensures exists i :: 1 <= i < |ring| && ring[i].index == k
    {
      assert k == old(ring[at].index) || k in t;
      var i :| 1 <= i < |ring| && old(ring[i].index) == k;
      assert ring[i].index == k;
    }
    forall i | 1 <= i < |ring|
      ensures ring[i].index == old(ring[i].index) && (i != at ==> ring[i].index != key && Held(ring[i]) == old(Held(ring[i])))
    {
    }
  }

  /** Links whose entry fields did not change. */
  twostate predicate SameEntries(ring: seq<Link>)
    reads ring
  {
    unchanged(ring`index) && unchanged(ring`iftype) && unchanged(ring`flags) && unchanged(ring`name)
  }

  /** The buckets after an entry was linked in right behind the sentinel of bucket `b`. */
  twostate lemma Inserted(v: View, new v': View, new b: nat, new entry: Link)
    requires v.Shaped() && old(v.Right()) && b < BUCKETS && v.rings[b] != [] && entry !in v.owner
    requires v'.rings == v.rings[b := InsertAt(v.rings[b], 1, entry)] && v'.heads == v.heads
    requires v'.owner == v.owner[entry := b] && v'.table == v.table[entry.index := Held(entry)]
    requires forall x :: x in v.owner && v.owner[x] != b ==> unchanged(x)
    requires SameEntries(v.rings[b]) && entry.index !in v.table && entry.index % BUCKETS == b
    requires Ring(InsertAt(v.rings[b], 1, entry))
    ensures v'.Shaped() && v'.Right()
  {
    PlacedAdd(v.rings, v.owner, b, entry);
    assert old(Bucket(v.rings[b], v.heads[b], b, v.table));
    OthersKept(v, b, v'.table, entry.index);
    ListsKept(v.rings[b], b, v.table);
    ListsAdd(v.rings[b], entry, b, v.table, v'.table);
    Replaced(v.rings, v.heads, v'.owner, b, v'.table, InsertAt(v.rings[b], 1, entry));
  }

  /** The buckets after the entry `at` of bucket `b` was unlinked. */
  twostate lemma Removed(v: View, new v': View, new b: nat, new at: nat, new key: nat)
    requires v.Shaped() && old(v.Right()) && b < BUCKETS && 1 <= at < |v.rings[b]|
    requires v.rings[b][at].index == key && key % BUCKETS == b
    requires v'.rings == v.rings[b := RemoveAt(v.rings[b], at)] && v'.heads == v.heads
    requires v'.owner == v.owner && v'.table == v.table - {key}
    requires forall x :: x in v.owner && v.owner[x] != b ==> unchanged(x)
    requires SameEntries(v.rings[b]) && Ring(RemoveAt(v.rings[b], at))
    ensures v'.Shaped() && v'.Right()
  {
    PlacedDel(v.rings, v.owner, b, at);
    assert old(Bucket(v.rings[b], v.heads[b], b, v.table));
    OthersKept(v, b, v'.table, key);
    OneRemoved(v.rings[b], b, v.table, at, key);
    Replaced(v.rings, v.heads, v.owner, b, v'.table, RemoveAt(v.rings[b], at));
  }

  twostate lemma OneRemoved(ring: seq<Link>, new b: nat, new t: Interfaces, new at: nat, new key: nat)
    requires 1 <= at < |ring| && old(Bucket(ring, ring[0], b, t)) && ring[at].index == key
    requires SameEntries(ring) && Ring(RemoveAt(ring, at))
    ensures Bucket(RemoveAt(ring, at), ring[0], b, t - {key})
  {
    ListsKept(ring, b, t);
    ListsDel(ring, at, b, t, key);
  }

  /** Putting one right bucket in place of another. */
  lemma Replaced(rings: seq<seq<Link>>, heads: seq<Link>, owner: map<Link, nat>, b: nat, t: Interfaces, ring: seq<Link>)
    requires |rings| == |heads| == BUCKETS && b < BUCKETS && Placed(rings[b := ring], owner)
    requires Bucket(ring, heads[b], b, t)
    requires forall c :: 0 <= c < BUCKETS && c != b ==> Bucket(rings[c], heads[c], c, t)
    ensures Buckets(rings[b := ring], heads, owner, t)
  {
  }

  lemma PlacedDel(rings: seq<seq<Link>>, owner: map<Link, nat>, b: nat, at: nat)
    requires Placed(rings, owner) && b < BUCKETS && at < |rings[b]|
    ensures Placed(rings[b := RemoveAt(rings[b], at)], owner)
  {
  }

  lemma ListsDel(ring: seq<Link>, at: nat, b: nat, t: Interfaces, key: nat)
    requires 1 <= at < |ring| && Lists(ring, b, t) && ring[at].index == key
    ensures RemoveAt(ring, at)[0] == ring[0] && Lists(RemoveAt(ring, at), b, t - {key})
  {
    var r := RemoveAt(ring, at);
    forall i | 1 <= i < |r|
      ensures r[i] == ring[if i < at then i else i + 1] && r[i].index != key
    {
    }
    forall k | k in t && k != key && k % BUCKETS == b
      ensures exists i :: 1 <= i < |r| && r[i].index == k
    {
      var i :| 1 <= i < |ring| && ring[i].index == k;
      assert r[if i < at then i else i - 1] == ring[i];
    }
  }

  twostate lemma ListsKept(ring: seq<Link>, new b: nat, new t: Interfaces)
    requires old(Lists(ring, b, t)) && SameEntries(ring)
    ensures Lists(ring, b, t)
  {
    forall k | k in t && k % BUCKETS == b
      ensures exists i :: 1 <= i < |ring| && ring[i].index == k
    {
      var i :| 1 <= i < |ring| && old(ring[i].index) == k;
      assert ring[i].index == k;
    }
    forall i | 1 <= i < |ring|
      ensures ring[i].index == old(ring[i].index) && Held(ring[i]) == old(Held(ring[i]))
    {
    }
  }

  lemma ListsAdd(ring: seq<Link>, entry: Link, b: nat, t: Interfaces, t': Interfaces)
    requires ring != [] && Lists(ring, b, t) && entry.index !in t && entry.index % BUCKETS == b
    requires t' == t[entry.index := Held(entry)]
    ensures Lists(InsertAt(ring, 1, entry), b, t')
  {
    var r := InsertAt(ring, 1, entry);
    forall i | 1 <= i < |r|
      ensures r[i].index % BUCKETS == b && r[i].index in t' && t'[r[i].index] == Held(r[i])
      ensures i > 1 ==> r[i] == ring[i - 1]
    {
      if i > 1 {
        assert r[i] == ring[i - 1];
      }
    }
    forall k | k in t' && k % BUCKETS == b
      ensures exists i :: 1 <= i < |r| && r[i].index == k
    {
      if k == entry.index {
        assert r[1].index == k;
      } else {
        var i :| 1 <= i < |ring| && ring[i].index == k;
        assert r[i + 1] == ring[i];
      }
    }
  }
}
