/** Walking a buffer of netlink messages: the header layout of section 2.3.2 of RFC 3549 and
    the steps shared by every receive loop. */
module Messages {
  import opened Bytes

  const NLMSG_ERROR := 2
  const NLMSG_DONE := 3

  /** A message in a buffer: where it starts and its nlmsg_len bytes. */
  datatype RawMsg = RawMsg(at: nat, bytes: seq<byte>) {
    predicate Valid() { |bytes| >= NLMSG_HDRLEN }
    function Type(): u16 requires Valid() { Le16(bytes, 4) }
    function Flags(): u16 requires Valid() { Le16(bytes, 6) }
    function Seq(): u32 requires Valid() { Le32(bytes, 8) }
    function Pid(): u32 requires Valid() { Le32(bytes, 12) }
  }

  /** A whole message lies at `pos`, before `end`. */
  predicate MsgAt(s: seq<byte>, pos: nat, end: nat)
    requires end <= |s|
  {
    pos + NLMSG_HDRLEN <= end && NLMSG_HDRLEN <= Le32(s, pos) as int <= end - pos
  }

  function MsgFrom(s: seq<byte>, pos: nat, end: nat): (m: RawMsg)
    requires end <= |s| && MsgAt(s, pos, end)
    ensures m.Valid() && |m.bytes| == Le32(s, pos) as int
  {
    RawMsg(pos, s[pos..pos + Le32(s, pos) as nat])
  }

  function After(s: seq<byte>, pos: nat): (next: nat)
    requires pos + 4 <= |s|
    ensures next >= pos
  {
    pos + Align(Le32(s, pos))
  }

  /** The messages found by stepping from `pos` until no whole message is left. */
  function Msgs(s: seq<byte>, pos: nat, end: nat): (ms: seq<RawMsg>)
    requires end <= |s|
    ensures forall m <- ms :: m.Valid()
    decreases end - pos
  {
    if !MsgAt(s, pos, end) then [] else [MsgFrom(s, pos, end)] + Msgs(s, After(s, pos), end)
  }

  /** Where that walk stops, possibly past the end by the last message's padding. */
  function Stop(s: seq<byte>, pos: nat, end: nat): (p: nat)
    requires end <= |s|
    decreases end - pos
  {
    if !MsgAt(s, pos, end) then pos else Stop(s, After(s, pos), end)
  }

  /** The bytes left over by the walk. */
  function Left(s: seq<byte>, pos: nat, end: nat): nat
    requires end <= |s|
  {
    var p := Stop(s, pos, end);
    if p <= end then end - p else 0
  }

  /** A walk over all of `s` up to `end` has passed `i` of the messages and stands at `pos`. */
  ghost predicate Walking(s: seq<byte>, pos: nat, end: nat, ms: seq<RawMsg>, i: nat)
    requires end <= |s|
  {
    i <= |ms| && ms[i..] == Msgs(s, pos, end) && Left(s, pos, end) == Left(s, 0, end)
  }

  /** A loop that clips its step at the end of the buffer walks the same messages. */
  lemma ClippedStep(s: seq<byte>, pos: nat, end: nat, next: nat, ms: seq<RawMsg>, i: nat)
    requires end <= |s| && MsgAt(s, pos, end) && Walking(s, pos, end, ms, i)
    requires next == pos + Min(Align(Le32(s, pos)), end - pos)
    ensures i < |ms| && ms[i] == MsgFrom(s, pos, end) && Walking(s, next, end, ms, i + 1)
  {
    var m, after := MsgFrom(s, pos, end), After(s, pos);
    var rest := Msgs(s, after, end);
    assert Msgs(s, pos, end) == [m] + rest;
    assert ms[i] == ms[i..][0] == m && ms[i + 1..] == ms[i..][1..] == rest;
    if after > end {
      assert rest == [] && Msgs(s, next, end) == [];
      assert Stop(s, after, end) == after && Stop(s, next, end) == next == end;
    }
  }

  /** A walk with too little left, or a malformed header, has passed every message. */
  lemma WalkEnds(s: seq<byte>, pos: nat, end: nat, ms: seq<RawMsg>, i: nat)
    requires pos <= end <= |s| && !MsgAt(s, pos, end) && Walking(s, pos, end, ms, i)
    ensures i == |ms| && Left(s, 0, end) == end - pos
  {
  }

  /** Messages that lie back to back from `pos` to `stop`, each in bounds and each starting
      where the padding of the one before it ends. */
  ghost predicate BackToBack(ms: seq<RawMsg>, s: seq<byte>, pos: nat, end: nat, stop: nat)
    requires end <= |s|
  {
    (forall m <- ms :: Inside(m, s, pos, end)) && Chained(ms, pos, stop)
  }

  ghost predicate Inside(m: RawMsg, s: seq<byte>, pos: nat, end: nat)
    requires end <= |s|
  {
    pos <= m.at && m.at + |m.bytes| <= end && m.bytes == s[m.at..m.at + |m.bytes|]
  }

  ghost predicate Chained(ms: seq<RawMsg>, pos: nat, stop: nat) {
    && (forall i {:trigger ms[i].bytes} :: 0 <= i < |ms| - 1 ==> ms[i + 1].at == ms[i].at + Align(|ms[i].bytes|))
    && (if ms == [] then stop == pos
        else ms[0].at == pos && stop == ms[|ms| - 1].at + Align(|ms[|ms| - 1].bytes|))
  }

  /** The walk from `pos` cuts the buffer into consecutive messages and stops after the last. */
  lemma {:induction false} MsgsPartition(s: seq<byte>, pos: nat, end: nat)
    requires end <= |s|
    ensures BackToBack(Msgs(s, pos, end), s, pos, end, Stop(s, pos, end))
    decreases end - pos
  {
    if MsgAt(s, pos, end) {
      hide BackToBack, Msgs, Stop;
      MsgsCons(s, pos, end);
      MsgsPartition(s, After(s, pos), end);
      BackToBackCons(MsgFrom(s, pos, end), Msgs(s, After(s, pos), end), s, pos, end, Stop(s, After(s, pos), end));
    }
  }

  lemma BackToBackCons(m: RawMsg, ms: seq<RawMsg>, s: seq<byte>, pos: nat, end: nat, stop: nat)
    requires m.at == pos && pos + |m.bytes| <= end <= |s| && m.bytes == s[pos..pos + |m.bytes|]
    requires BackToBack(ms, s, pos + Align(|m.bytes|), end, stop)
    ensures BackToBack([m] + ms, s, pos, end, stop)
  {
    hide Chained;
    ChainedCons(m, ms, stop);
    forall r | r in [m] + ms
      ensures Inside(r, s, pos, end)
    {
      assert r == m || r in ms;
    }
  }

  lemma ChainedCons(m: RawMsg, ms: seq<RawMsg>, stop: nat)
    requires Chained(ms, m.at + Align(|m.bytes|), stop)
    ensures Chained([m] + ms, m.at, stop)
  {
    hide Align;
    var all := [m] + ms;
    forall i {:trigger all[i].bytes} | 0 <= i < |all| - 1
      ensures all[i + 1].at == all[i].at + Align(|all[i].bytes|)
    {
      if i > 0 {
        assert all[i] == ms[i - 1] && all[i + 1] == ms[i];
        assert ms[i - 1].bytes == all[i].bytes;
      } else {
        assert all[1] == ms[0];
      }
    }
    assert all[|all| - 1] == if ms == [] then m else ms[|ms| - 1];
  }

  /** Every message but the last ends where the padding of its length ends. */
  predicate AlignedButLast(ms: seq<seq<byte>>) {
    |ms| <= 1 || (|ms[0]| % 4 == 0 && AlignedButLast(ms[1..]))
  }

  /** Back-to-back messages are walked as exactly those messages if and only if all but the last
      have aligned lengths, and then the walk leaves nothing over. */
  lemma {:induction false} WalkConcat(ms: seq<seq<byte>>, s: seq<byte>, pos: nat)
    requires forall m <- ms :: Wire(m)
    requires pos <= |s| && s[pos..] == Concat(ms)
    ensures Bodies(Msgs(s, pos, |s|)) == ms <==> AlignedButLast(ms)
    ensures AlignedButLast(ms) ==> Left(s, pos, |s|) == 0
    decreases |ms|
  {
    hide Msgs, Stop, Bodies;
    if ms == [] {
      assert |s[pos..]| == 0;
      NoneLeft(s, pos);
    } else {
      var m, next := ms[0], pos + Align(|ms[0]|);
      FirstBody(s, pos, m, Concat(ms[1..]));
      BodiesCons(RawMsg(pos, m), Msgs(s, next, |s|));
      SameTail(m, Bodies(Msgs(s, next, |s|)), ms);
      if |m| % 4 == 0 {
        WalkConcat(ms[1..], s, next);
      } else if |ms| == 1 {
        assert |s[pos + |m|..]| == 0;
        NoneLeft(s, next);
      } else {
        // The bytes that the skipped padding took are missing at the end.
        BodiesFit(s, next, |s|);
        assert |Concat(ms[1..])| == |s[pos + |m|..]|;
        assert ms[1..] != [] && Wire(ms[1..][0]) by {
          assert ms[1] in ms;
        }
      }
    }
  }

  lemma SameTail<T>(x: T, tail: seq<T>, s: seq<T>)
    requires s != [] && s[0] == x
    ensures [x] + tail == s <==> tail == s[1..]
  {
    assert s == [x] + s[1..];
    assert ([x] + tail)[1..] == tail;
  }

  lemma NoneLeft(s: seq<byte>, pos: nat)
    requires pos >= |s|
    ensures Msgs(s, pos, |s|) == [] && Bodies([]) == [] && Left(s, pos, |s|) == 0
  {
  }

  /** A walk up to `end` depends on the bytes before it only. */
  lemma {:induction false} PrefixMsgs(s: seq<byte>, pos: nat, end: nat)
    requires end <= |s|
    ensures Msgs(s[..end], pos, end) == Msgs(s, pos, end) && Stop(s[..end], pos, end) == Stop(s, pos, end)
    decreases end - pos
  {
    SameMsgAt(s, pos, end);
    if MsgAt(s, pos, end) {
      hide Msgs, Stop, MsgAt, MsgFrom, After;
      MsgsCons(s, pos, end);
      MsgsCons(s[..end], pos, end);
      PrefixMsgs(s, After(s, pos), end);
    }
  }

  lemma SameMsgAt(s: seq<byte>, pos: nat, end: nat)
    requires end <= |s|
    ensures MsgAt(s[..end], pos, end) <==> MsgAt(s, pos, end)
    ensures MsgAt(s, pos, end) ==> After(s[..end], pos) == After(s, pos) && MsgFrom(s[..end], pos, end) == MsgFrom(s, pos, end)
    ensures MsgAt(s, pos, end) ==> pos + 4 <= |s| && After(s, pos) > pos
  {
    if MsgAt(s, pos, end) {
      assert s[..end][pos..pos + Le32(s, pos) as nat] == s[pos..pos + Le32(s, pos) as nat];
    }
  }

  /** A buffer that holds one message. */
  lemma OneMsg(m: seq<byte>)
    requires |m| >= NLMSG_HDRLEN && Le32(m, 0) as int == |m|
    ensures Msgs(m, 0, |m|) == [RawMsg(0, m)] && Left(m, 0, |m|) == 0
  {
    assert m[0..|m|] == m;
    MsgsCons(m, 0, |m|);
    NoneLeft(m, Align(|m|));
  }

  /** The messages of a walk fit into the bytes that it walks over. */
  lemma {:induction false} BodiesFit(s: seq<byte>, pos: nat, end: nat)
    requires end <= |s|
    ensures |Concat(Bodies(Msgs(s, pos, end)))| <= if pos <= end then end - pos else 0
    decreases end - pos
  {
    if MsgAt(s, pos, end) {
      hide Msgs, Bodies;
      MsgsCons(s, pos, end);
      BodiesFit(s, After(s, pos), end);
      BodiesCons(MsgFrom(s, pos, end), Msgs(s, After(s, pos), end));
      ConcatCons(MsgFrom(s, pos, end).bytes, Bodies(Msgs(s, After(s, pos), end)));
    }
  }

  lemma ConcatCons(m: seq<byte>, ms: seq<seq<byte>>)
    ensures Concat([m] + ms) == m + Concat(ms)
  {
    assert ([m] + ms)[1..] == ms;
  }

  lemma BodiesCons(m: RawMsg, ms: seq<RawMsg>)
    ensures Bodies([m] + ms) == [m.bytes] + Bodies(ms)
  {
    assert ([m] + ms)[1..] == ms;
  }

  lemma FirstBody(s: seq<byte>, pos: nat, m: seq<byte>, rest: seq<byte>)
    requires Wire(m) && pos <= |s| && s[pos..] == m + rest
    ensures pos + |m| <= |s| && s[pos + |m|..] == rest
    ensures Msgs(s, pos, |s|) == [RawMsg(pos, m)] + Msgs(s, pos + Align(|m|), |s|)
    ensures Left(s, pos, |s|) == Left(s, pos + Align(|m|), |s|)
  {
    hide Msgs, Stop;
    FirstBytes(s, pos, m, rest);
    assert MsgFrom(s, pos, |s|) == RawMsg(pos, m) && After(s, pos) == pos + Align(|m|);
    MsgsCons(s, pos, |s|);
  }

  lemma MsgsCons(s: seq<byte>, pos: nat, end: nat)
    requires end <= |s| && MsgAt(s, pos, end)
    ensures Msgs(s, pos, end) == [MsgFrom(s, pos, end)] + Msgs(s, After(s, pos), end)
    ensures Stop(s, pos, end) == Stop(s, After(s, pos), end)
  {
  }

  lemma FirstBytes(s: seq<byte>, pos: nat, m: seq<byte>, rest: seq<byte>)
    requires |m| >= NLMSG_HDRLEN && pos <= |s| && s[pos..] == m + rest
    ensures pos + |m| <= |s| && s[pos..pos + |m|] == m && s[pos + |m|..] == rest
    ensures Le32(s, pos) == Le32(m, 0)
  {
    var t := s[pos..];
    assert t[..|m|] == m && t[|m|..] == rest;
    assert s[pos] == t[0] && s[pos + 1] == t[1] && s[pos + 2] == t[2] && s[pos + 3] == t[3];
    assert s[pos..pos + |m|] == t[..|m|];
    assert s[pos + |m|..] == t[|m|..];
  }

  /** A message as its builder leaves it: the length field is its length. */
  predicate Wire(m: seq<byte>) { |m| >= NLMSG_HDRLEN && Le32(m, 0) as int == |m| }

  function Concat(ms: seq<seq<byte>>): seq<byte> {
    if ms == [] then [] else ms[0] + Concat(ms[1..])
  }

  function Bodies(ms: seq<RawMsg>): seq<seq<byte>> {
    if ms == [] then [] else [ms[0].bytes] + Bodies(ms[1..])
  }
}
