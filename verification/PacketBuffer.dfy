/** The packet buffer of libnetfilter_queue for an AF_INET packet: `head`, `data` and
    `network_header` all point at the first byte, so offsets start there. */
module PacketBuffer {
  import opened Bytes
  import Memory

  const MAX_PACKET := 65535

  /** The packet with `n` bytes at `at` replaced by `rep`. */
  function Splice(s: seq<byte>, at: nat, n: nat, rep: seq<byte>): (r: seq<byte>)
    requires at + n <= |s|
    ensures |r| == |s| - n + |rep|
  {
    s[..at] + rep + s[at + n..]
  }

  function Growth(n: nat, rep: seq<byte>): nat { if |rep| > n then |rep| - n else 0 }

  class PktBuff {
    const data: array<byte>
    var len: nat
    var tail: nat
    var mangled: bool

    /** A trimmed packet leaves `tail` behind its end; it never runs ahead of it. */
    ghost predicate Valid()
      reads this
    {
      len <= tail <= data.Length < 0x1_0000_0000
    }

    function Contents(): seq<byte>
      requires Valid()
      reads this, data
    {
      data[..len]
    }

    /** pktb_alloc */
    constructor (packet: seq<byte>, extra: nat)
      requires |packet| + extra < 0x1_0000_0000
      ensures Valid() && fresh(data) && Contents() == packet && tail == len && !mangled
      ensures data[len..] == Memory.Zeros(extra)
    {
      data := new byte[|packet| + extra](_ => 0);
      len, tail, mangled := |packet|, |packet|, false;
      new;
      Memory.CopyIn(data, 0, packet);
    }

    /** pktb_tailroom */
    function Tailroom(): nat
      requires Valid()
      reads this
    {
      data.Length - len
    }

    /** enlarge_pkt answers no: the packet would be too long, or the expansion by what the
        tailroom lacks does not fit either. */
    predicate EnlargeRefuses(extra: nat)
      requires Valid()
      reads this
    {
      len + extra > MAX_PACKET || len + (extra - Tailroom()) > data.Length
    }

    /** pktb_put */
    method Put(n: nat)
      requires Valid() && tail + n <= data.Length
      modifies this
      ensures Valid() && len == old(len) + n && tail == old(tail) + n && mangled == old(mangled)
    {
      tail := tail + n;
      len := len + n;
    }

    /** pktb_trim */
    method Trim(n: nat)
      requires Valid() && n <= tail
      modifies this
      ensures Valid() && len == n && tail == old(tail) && mangled == old(mangled)
    {
      len := n;
    }

    /** What pktb_mangle asks of its caller: the match lies in the packet, and either the growth
        has room behind `tail`, or it is refused. */
    ghost predicate CanMangle(at: nat, n: nat, rep: seq<byte>)
      requires Valid()
      reads this
    {
      && at + n <= len
      && if Growth(n, rep) <= Tailroom() then HasRoom(tail, Growth(n, rep), data.Length)
         else EnlargeRefuses(Growth(n, rep))
    }

    /** The two block moves of pktb_mangle. */
    method MoveAndInsert(at: nat, n: nat, rep: seq<byte>)
      requires Valid() && at + n <= len && tail + |rep| <= data.Length + n
      modifies data
      ensures data[..len - n + |rep|] == Splice(old(Contents()), at, n, rep)
    {
      hide Splice, Overwrite;
      ghost var was := data[..];
      Memory.Move(data, at + |rep|, at + n, tail - (at + n));
      Memory.CopyIn(data, at, rep);
      Spliced(was, data[..], at, n, rep, len, tail);
    }

    /** pktb_mangle: the packet is spliced in place, or nothing changes. */
    method Mangle(dataoff: nat, matchOffset: nat, matchLen: nat, rep: seq<byte>) returns (ok: bool)
      requires Valid() && CanMangle(dataoff + matchOffset, matchLen, rep)
      modifies this, data
      ensures Valid() && ok == (Growth(matchLen, rep) <= old(Tailroom()))
      ensures ok ==> Contents() == Splice(old(Contents()), dataoff + matchOffset, matchLen, rep)
      ensures ok ==> tail == old(tail) + Growth(matchLen, rep) && mangled
      ensures !ok ==> Contents() == old(Contents()) && tail == old(tail) && mangled == old(mangled)
    {
      if |rep| > matchLen && |rep| - matchLen > Tailroom() {
        return false;
      }
      MoveAndInsert(dataoff + matchOffset, matchLen, rep);
      if |rep| > matchLen {
        Put(|rep| - matchLen);
      } else {
        Trim(len + |rep| - matchLen);
      }
      mangled := true;
      ok := true;
    }
  }

  /** Moving the rest of the buffer and writing the replacement splices every prefix that
      reaches past the match. */
  lemma Spliced(s: seq<byte>, r: seq<byte>, at: nat, n: nat, rep: seq<byte>, len: nat, tail: nat)
    requires at + n <= len <= tail <= |s| && at + |rep| + (tail - at - n) <= |s|
    requires r == Overwrite(Overwrite(s, at + |rep|, s[at + n..tail]), at, rep)
    ensures r[..len - n + |rep|] == Splice(s[..len], at, n, rep)
  {
    var moved := Overwrite(s, at + |rep|, s[at + n..tail]);
    var want := Splice(s[..len], at, n, rep);
    forall k | 0 <= k < |want|
      ensures r[k] == want[k]
    {
      if k >= at + |rep| {
        assert r[k] == moved[k] == s[at + n..tail][k - at - |rep|] == s[k - |rep| + n];
      }
    }
  }

  // ---------------------------------------------------------------- sequences of mangles

  datatype Edit = Edit(at: nat, n: nat, rep: seq<byte>)

  /** Each edit in turn lies in the packet it meets and has room behind `tail`. */
  ghost predicate EditsFit(len: nat, tail: nat, room: nat, edits: seq<Edit>)
    decreases |edits|
  {
    edits == [] ||
    var e := edits[0];
    && e.at + e.n <= len
    && HasRoom(tail, Growth(e.n, e.rep), room)
    && EditsFit(len - e.n + |e.rep|, tail + Growth(e.n, e.rep), room, edits[1..])
  }

  function SpliceAll(s: seq<byte>, edits: seq<Edit>): seq<byte>
    decreases |edits|
  {
    if edits == [] || edits[0].at + edits[0].n > |s| then s
    else SpliceAll(Splice(s, edits[0].at, edits[0].n, edits[0].rep), edits[1..])
  }

  /** Any run of mangles that fits, growing and shrinking, has the effect of the same
      replacements on an immutable sequence. */
  method MangleAll(pkt: PktBuff, edits: seq<Edit>)
    requires pkt.Valid() && EditsFit(pkt.len, pkt.tail, pkt.data.Length, edits)
    modifies pkt, pkt.data
    ensures pkt.Valid() && pkt.Contents() == SpliceAll(old(pkt.Contents()), edits)
    ensures pkt.tail == old(pkt.tail) + TotalGrowth(edits)
  {
    hide Splice;
    var i := 0;
    while i < |edits|
      invariant 0 <= i <= |edits| && pkt.Valid()
      invariant EditsFit(pkt.len, pkt.tail, pkt.data.Length, edits[i..])
      invariant SpliceAll(pkt.Contents(), edits[i..]) == SpliceAll(old(pkt.Contents()), edits)
      invariant pkt.tail + TotalGrowth(edits[i..]) == old(pkt.tail) + TotalGrowth(edits)
    {
      var e := edits[i];
      assert edits[i..][0] == e && edits[i..][1..] == edits[i + 1..];
      var ok := pkt.Mangle(0, e.at, e.n, e.rep);
      assert ok;
      i := i + 1;
    }
  }

  function TotalGrowth(edits: seq<Edit>): nat {
    if edits == [] then 0 else Growth(edits[0].n, edits[0].rep) + TotalGrowth(edits[1..])
  }

  /** While no edit shrinks the packet, `tail` stays at its end, and the edits fit exactly when
      each lies in the packet and the total growth is at most the tailroom. */
  lemma {:induction false} NonShrinkingFits(len: nat, room: nat, edits: seq<Edit>)
    requires len <= room && forall e <- edits :: |e.rep| >= e.n
    ensures EditsFit(len, len, room, edits) <==> InPacket(len, edits) && TotalGrowth(edits) <= room - len
    decreases |edits|
  {
    if edits != [] {
      var e := edits[0];
      assert e in edits;
      var len' := len + |e.rep| - e.n;
      if e.at + e.n <= len {
        if len' <= room {
          NonShrinkingFits(len', room, edits[1..]);
        }
      }
    }
  }

  /** pktb_tailroom counts from the packet's end, but what grows lies behind `tail`: for a buffer
      of `size` bytes, every growth within the tailroom has room if and only if the tail is at the
      packet's end. */
  lemma TailroomIff(len: nat, tail: nat, size: nat)
    requires len <= tail <= size
    ensures (forall g: nat :: g <= size - len ==> HasRoom(tail, g, size)) <==> tail == len
  {
    if tail != len {
      assert !HasRoom(tail, size - len, size);
    }
  }

  predicate HasRoom(tail: nat, growth: nat, size: nat) { tail + growth <= size }

  /** Taking one byte out of a full buffer and putting one in again: both edits are within the
      tailroom when they come, and the second has no room behind the tail. */
  lemma ShrinkThenGrow(len: nat, x: byte)
    requires len > 0
    ensures var edits := [Edit(0, 1, []), Edit(0, 0, [x])];
            && EditsFit(len, len, len, edits[..1]) && Growth(0, [x]) <= len - (len - 1)
            && !EditsFit(len, len, len, edits)
  {
    var edits := [Edit(0, 1, []), Edit(0, 0, [x])];
    assert edits[..1][1..] == [] && edits[1..] == [Edit(0, 0, [x])];
    assert Growth(1, []) == 0 && Growth(0, [x]) == 1;
  }

  ghost predicate InPacket(len: nat, edits: seq<Edit>)
    decreases |edits|
  {
    edits == [] || (edits[0].at + edits[0].n <= len && InPacket(len - edits[0].n + |edits[0].rep|, edits[1..]))
  }
}
