/** The message batch of libmnl, and the loop that drives it: put a message, ask for room for
    the next one, and when the message did not fit, send the batch and start a new one with
    the message that was left over. */
module Batch {
  import opened Bytes
  import opened Messages
  import Memory

  /** struct mnl_nlmsg_batch; `cur` is an offset into the buffer. */
  class NlmsgBatch {
    const buf: array<byte>
    const limit: nat
    var buflen: nat
    var cur: nat
    var overflow: bool

    /** The buffer is twice the limit, and messages are added where the batch ends. */
    ghost predicate Valid()
      reads this
    {
      buf.Length >= 2 * limit && cur == buflen <= limit
    }

    /** mnl_nlmsg_batch_start */
    constructor (buf: array<byte>, limit: nat)
      requires buf.Length >= 2 * limit
      ensures Valid() && this.buf == buf && this.limit == limit && buflen == 0 && !overflow
    {
      this.buf, this.limit := buf, limit;
      buflen, cur, overflow := 0, 0, false;
    }

    /** The client writes a message at mnl_nlmsg_batch_current. */
    method Put(m: seq<byte>)
      requires Valid() && |m| <= limit
      modifies buf
      ensures buf[..] == Overwrite(old(buf[..]), buflen, m)
    {
      Memory.CopyIn(buf, cur, m);
    }

    /** mnl_nlmsg_batch_next */
    method Next() returns (room: bool)
      requires Valid() && cur + 4 <= buf.Length
      modifies this
      ensures Valid()
      ensures room <==> old(buflen) + Le32(buf[..], old(buflen)) as nat <= limit
      ensures buflen == if room then old(buflen) + Le32(buf[..], old(buflen)) as nat else old(buflen)
      ensures overflow == (old(overflow) || !room)
    {
      var n := Le32(buf[..], cur) as nat;
      if buflen + n > limit {
        overflow := true;
        return false;
      }
      cur := buflen + n;
      buflen := buflen + n;
      room := true;
    }

    /** mnl_nlmsg_batch_reset; its memcpy must not overlap. */
    method Reset()
      requires Valid()
      requires overflow ==> cur + 4 <= buf.Length && Le32(buf[..], cur) as nat <= Min(cur, limit)
      modifies this, buf
      ensures Valid() && !overflow
      ensures old(overflow) ==>
                var n := old(Le32(buf[..], buflen)) as nat;
                buflen == n && buf[..] == Overwrite(old(buf[..]), 0, old(buf[buflen..buflen + Le32(buf[..], buflen) as nat]))
      ensures !old(overflow) ==> buflen == 0 && buf[..] == old(buf[..])
    {
      hide Le32, Overwrite;
      if overflow {
        var n := Le32(buf[..], cur) as nat;
        Memory.Move(buf, 0, cur, n);
        buflen := n;
        cur := buflen;
        overflow := false;
      } else {
        buflen := 0;
        cur := 0;
      }
    }
  }

  // ---------------------------------------------------------------- what is sent

  type Group = seq<seq<byte>>

  /** Filling batches in order: `open` is the batch being filled. */
  function Groups(ms: seq<seq<byte>>, open: Group, limit: nat): seq<Group>
    decreases |ms|
  {
    if ms == [] then if open == [] then [] else [open]
    else if |Concat(open)| + |ms[0]| <= limit then Groups(ms[1..], open + [ms[0]], limit)
    else [open] + Groups(ms[1..], [ms[0]], limit)
  }

  function Datagrams(gs: seq<Group>): seq<seq<byte>> {
    if gs == [] then [] else [Concat(gs[0])] + Datagrams(gs[1..])
  }

  function Flatten(gs: seq<Group>): seq<seq<byte>> {
    if gs == [] then [] else gs[0] + Flatten(gs[1..])
  }

  /** No left-over message is longer than the batch it follows, so no reset copy overlaps. */
  ghost predicate CopiesApart(ms: seq<seq<byte>>, open: Group, limit: nat)
    decreases |ms|
  {
    ms == []
    || (if |Concat(open)| + |ms[0]| <= limit then CopiesApart(ms[1..], open + [ms[0]], limit)
        else |ms[0]| <= |Concat(open)| && CopiesApart(ms[1..], [ms[0]], limit))
  }

  /** The batch holds exactly the messages of `open`, and none is waiting behind them. */
  ghost predicate Filled(b: NlmsgBatch, open: Group)
    reads b, b.buf
  {
    b.Valid() && !b.overflow && b.buflen == |Concat(open)| && b.buf[..b.buflen] == Concat(open)
  }

  /** One round of the driver: put, next, and if there was no room, send and reset. */
  method Round(b: NlmsgBatch, m: seq<byte>, ghost open: Group) returns (sent: seq<seq<byte>>)
    requires Filled(b, open) && Wire(m) && |m| <= b.limit
    requires |Concat(open)| + |m| > b.limit ==> |m| <= |Concat(open)|
    modifies b, b.buf
    ensures |Concat(open)| + |m| <= b.limit ==> sent == [] && Filled(b, open + [m])
    ensures |Concat(open)| + |m| > b.limit ==> sent == [Concat(open)] && Filled(b, [m])
    ensures b.buf[2 * b.limit..] == old(b.buf[2 * b.limit..])
  {
    ghost var was := b.buf[..];
    b.Put(m);
    PutKeeps(was, b.buflen, m, 2 * b.limit);
    var room := b.Next();
    if room {
      sent := [];
      ConcatAppend(open, m);
      AfterPut(b.buf[..], |Concat(open)|, m);
    } else {
      sent := [b.buf[..b.buflen]];
      was := b.buf[..];
      b.Reset();
      PutKeeps(was, 0, m, 2 * b.limit);
      ConcatOne(m);
    }
  }

  /** The driver loop, from the first put to the final send. */
  method SendAll(buf: array<byte>, limit: nat, ms: seq<seq<byte>>) returns (sent: seq<seq<byte>>)
    requires buf.Length >= 2 * limit
    requires forall m <- ms :: Wire(m) && |m| <= limit
    requires CopiesApart(ms, [], limit)
    modifies buf
    ensures sent == Datagrams(Groups(ms, [], limit))
    ensures buf[2 * limit..] == old(buf[2 * limit..])
  {
    hide Groups, Datagrams, CopiesApart, Wire;
    var b := new NlmsgBatch(buf, limit);
    sent := [];
    ghost var open: Group := [];
    var i := 0;
    while i < |ms|
      invariant 0 <= i <= |ms|
      invariant fresh(b) && b.buf == buf && b.limit == limit && Filled(b, open)
      invariant CopiesApart(ms[i..], open, limit)
      invariant forall m <- open :: Wire(m)
      invariant sent + Datagrams(Groups(ms[i..], open, limit)) == Datagrams(Groups(ms, [], limit))
      invariant buf[2 * limit..] == old(buf[2 * limit..])
    {
      var m := ms[i];
      assert ms[i..][0] == m && ms[i..][1..] == ms[i + 1..];
      CopiesStep(ms[i..], open, limit);
      var out := Round(b, m, open);
      RoundSent(ms[i..], open, limit, sent);
      sent := sent + out;
      open := if |Concat(open)| + |m| <= limit then open + [m] else [m];
      i := i + 1;
    }
    assert ms[i..] == [];
    LastSent(open, limit, sent);
    if b.buflen != 0 {
      sent := sent + [buf[..b.buflen]];
    }
  }

  lemma CopiesStep(ms: seq<seq<byte>>, open: Group, limit: nat)
    requires ms != [] && CopiesApart(ms, open, limit)
    ensures if |Concat(open)| + |ms[0]| <= limit then CopiesApart(ms[1..], open + [ms[0]], limit)
            else |ms[0]| <= |Concat(open)| && CopiesApart(ms[1..], [ms[0]], limit)
  {
  }

  lemma LastSent(open: Group, limit: nat, sent: seq<seq<byte>>)
    requires forall m <- open :: Wire(m)
    ensures sent + Datagrams(Groups([], open, limit)) == if Concat(open) == [] then sent else sent + [Concat(open)]
  {
    NoBytes(open);
    assert [open][1..] == [];
  }

  lemma RoundSent(ms: seq<seq<byte>>, open: Group, limit: nat, sent: seq<seq<byte>>)
    requires ms != []
    ensures var rest := sent + Datagrams(Groups(ms, open, limit));
            if |Concat(open)| + |ms[0]| <= limit then rest == sent + [] + Datagrams(Groups(ms[1..], open + [ms[0]], limit))
            else rest == sent + [Concat(open)] + Datagrams(Groups(ms[1..], [ms[0]], limit))
  {
  }

  lemma PutKeeps(s: seq<byte>, at: nat, m: seq<byte>, bound: nat)
    requires at + |m| <= bound <= |s|
    ensures var r := Overwrite(s, at, m);
            r[..at] == s[..at] && r[at..at + |m|] == m && r[bound..] == s[bound..]
    ensures |m| >= 4 ==> Le32(Overwrite(s, at, m), at) == Le32(m, 0)
  {
    var r := Overwrite(s, at, m);
    OverwriteSlices(s, at, m);
    SameSlice(r, s, at + |m|, bound, |s|);
  }

  lemma AfterPut(s: seq<byte>, at: nat, m: seq<byte>)
    requires at + |m| <= |s| && s[at..at + |m|] == m
    ensures s[..at + |m|] == s[..at] + m
  {
  }

  lemma {:induction false} ConcatAppend(g: Group, m: seq<byte>)
    ensures Concat(g + [m]) == Concat(g) + m
    decreases |g|
  {
    if g == [] {
      ConcatOne(m);
      assert g + [m] == [m];
    } else {
      assert (g + [m])[1..] == g[1..] + [m];
      ConcatAppend(g[1..], m);
    }
  }

  lemma ConcatOne(m: seq<byte>)
    ensures Concat([m]) == m
  {
  }

  /** A batch of no bytes holds no messages, since every message has a header. */
  lemma NoBytes(g: Group)
    requires forall m <- g :: Wire(m)
    ensures Concat(g) == [] <==> g == []
  {
    if g != [] {
      assert g[0] in g;
    }
  }

  // ---------------------------------------------------------------- main results

  /** Nothing is lost, repeated or reordered. */
  lemma {:induction false} BatchesConserve(ms: seq<seq<byte>>, open: Group, limit: nat)
    ensures Flatten(Groups(ms, open, limit)) == open + ms
    decreases |ms|
  {
    if ms == [] {
      assert open + ms == open;
    } else if |Concat(open)| + |ms[0]| <= limit {
      BatchesConserve(ms[1..], open + [ms[0]], limit);
      assert open + [ms[0]] + ms[1..] == open + ms;
    } else {
      BatchesConserve(ms[1..], [ms[0]], limit);
      var rest := Groups(ms[1..], [ms[0]], limit);
      assert ([open] + rest)[1..] == rest;
      assert [ms[0]] + ms[1..] == ms;
    }
  }

  /** Every datagram holds at least one message and stays within the limit, and was closed only
      because the next message did not fit. */
  ghost predicate Packed(gs: seq<Group>, limit: nat) {
    && (forall g <- gs :: g != [] && |Concat(g)| <= limit)
    && (forall i :: 0 < i < |gs| ==> gs[i] != [] && |Concat(gs[i - 1])| + |gs[i][0]| > limit)
  }

  lemma {:induction false} BatchesPacked(ms: seq<seq<byte>>, open: Group, limit: nat)
    requires |Concat(open)| <= limit && forall m <- ms :: |m| <= limit
    ensures Packed(Groups(ms, open, limit), limit)
    ensures open != [] ==> Groups(ms, open, limit) != [] && open <= Groups(ms, open, limit)[0]
    decreases |ms|
  {
    if ms != [] {
      assert ms[0] in ms;
      if |Concat(open)| + |ms[0]| <= limit {
        ConcatAppend(open, ms[0]);
        BatchesPacked(ms[1..], open + [ms[0]], limit);
      } else {
        ConcatOne(ms[0]);
        BatchesPacked(ms[1..], [ms[0]], limit);
        PackedCons(open, Groups(ms[1..], [ms[0]], limit), limit);
      }
    }
  }

  lemma PackedCons(g: Group, gs: seq<Group>, limit: nat)
    requires Packed(gs, limit) && g != [] && |Concat(g)| <= limit
    requires gs != [] && gs[0] != [] && |Concat(g)| + |gs[0][0]| > limit
    ensures Packed([g] + gs, limit)
  {
    var all := [g] + gs;
    forall i | 0 < i < |all|
      ensures all[i] != [] && |Concat(all[i - 1])| + |all[i][0]| > limit
    {
      assert all[i] == gs[i - 1] && gs[i - 1] in gs;
    }
  }

  /** A receiver that walks a datagram finds exactly its messages if and only if all but the
      last have aligned lengths, and then nothing is left over. */
  lemma DatagramsWalk(ms: seq<seq<byte>>, limit: nat, i: nat)
    requires forall m <- ms :: Wire(m)
    requires i < |Groups(ms, [], limit)|
    ensures var gs := Groups(ms, [], limit);
            var ds := Datagrams(gs);
            && |ds| == |gs| && ds[i] == Concat(gs[i])
            && (Bodies(Msgs(ds[i], 0, |ds[i]|)) == gs[i] <==> AlignedButLast(gs[i]))
            && (AlignedButLast(gs[i]) ==> Left(ds[i], 0, |ds[i]|) == 0)
  {
    var gs := Groups(ms, [], limit);
    BatchesConserve(ms, [], limit);
    assert [] + ms == ms;
    InFlatten(gs, i);
    DatagramAt(gs, i);
    assert Concat(gs[i])[0..] == Concat(gs[i]);
    WalkConcat(gs[i], Concat(gs[i]), 0);
  }

  lemma {:induction false} InFlatten(gs: seq<Group>, i: nat)
    requires i < |gs|
    ensures forall m <- gs[i] :: m in Flatten(gs)
    decreases |gs|
  {
    if i > 0 {
      InFlatten(gs[1..], i - 1);
    }
  }

  lemma {:induction false} DatagramAt(gs: seq<Group>, i: nat)
    requires i < |gs|
    ensures |Datagrams(gs)| == |gs| && Datagrams(gs)[i] == Concat(gs[i])
    decreases |gs|
  {
    if |gs| > 1 {
      DatagramAt(gs[1..], if i > 0 then i - 1 else 0);
    }
  }

  /** Messages that a client may build, of at most `bound` bytes. */
  predicate Bounded(ms: seq<seq<byte>>, bound: nat) { forall m <- ms :: Wire(m) && |m| <= bound }

  /** Messages of at most half the limit, rounded up, never make the reset copy overlap. */
  lemma {:induction false} HalvesApart(ms: seq<seq<byte>>, open: Group, limit: nat)
    requires forall m <- ms :: 2 * |m| <= limit + 1
    ensures CopiesApart(ms, open, limit)
    decreases |ms|
  {
    if ms != [] {
      assert ms[0] in ms;
      HalvesApart(ms[1..], if |Concat(open)| + |ms[0]| <= limit then open + [ms[0]] else [ms[0]], limit);
    }
  }

  /** A message of `n` bytes as its builder leaves it. */
  function WireOf(n: nat): (m: seq<byte>)
    requires NLMSG_HDRLEN <= n < 0x1_0000_0000
    ensures Wire(m) && |m| == n
  {
    var m := Bytes32(n) + Memory.Zeros(n - 4);
    assert Le32(m, 0) == Le32(Bytes32(n), 0);
    m
  }

  /** A short message followed by one that is longer and does not fit behind it. */
  lemma LongOverlaps(short: seq<byte>, long: seq<byte>, limit: nat)
    requires |short| < |long| <= limit < |short| + |long|
    ensures !CopiesApart([short, long], [], limit)
  {
    ConcatOne(short);
    assert [] + [short] == [short];
    assert [short, long][1..] == [long];
  }

  /** The limit alone is not enough: a header-sized message followed by a full-sized one. */
  lemma FullSizeOverlaps(limit: nat)
    requires NLMSG_HDRLEN < limit < 0x1_0000_0000
    ensures var ms := [WireOf(NLMSG_HDRLEN), WireOf(limit)];
            Bounded(ms, limit) && !CopiesApart(ms, [], limit)
  {
    LongOverlaps(WireOf(NLMSG_HDRLEN), WireOf(limit), limit);
  }

  /** Messages that are headers only all have the same length. */
  lemma {:induction false} HeadersApart(ms: seq<seq<byte>>, open: Group, limit: nat)
    requires Bounded(ms, NLMSG_HDRLEN) && NLMSG_HDRLEN <= limit
    requires Concat(open) == [] || |Concat(open)| >= NLMSG_HDRLEN
    ensures CopiesApart(ms, open, limit)
    decreases |ms|
  {
    if ms != [] {
      assert ms[0] in ms;
      ConcatAppend(open, ms[0]);
      ConcatOne(ms[0]);
      HeadersApart(ms[1..], if |Concat(open)| + |ms[0]| <= limit then open + [ms[0]] else [ms[0]], limit);
    }
  }

  /** A bound on the length of messages keeps every reset copy of every run from overlapping if
      and only if it is at most half the limit, rounded up, or lets through bare headers only. */
  lemma BoundApartIff(bound: nat, limit: nat)
    requires NLMSG_HDRLEN <= bound <= limit && bound < 0x1_0000_0000
    ensures (forall ms :: Bounded(ms, bound) ==> CopiesApart(ms, [], limit)) <==> 2 * bound <= limit + 1 || bound == NLMSG_HDRLEN
  {
    if bound == NLMSG_HDRLEN {
      forall ms | Bounded(ms, bound)
        ensures CopiesApart(ms, [], limit)
      {
        HeadersApart(ms, [], limit);
      }
    } else if 2 * bound <= limit + 1 {
      forall ms | Bounded(ms, bound)
        ensures CopiesApart(ms, [], limit)
      {
        HalvesApart(ms, [], limit);
      }
    } else {
      var n := if limit + 1 - bound < NLMSG_HDRLEN then NLMSG_HDRLEN else limit + 1 - bound;
      LongOverlaps(WireOf(n), WireOf(bound), limit);
      assert Bounded([WireOf(n), WireOf(bound)], bound);
    }
  }
}
