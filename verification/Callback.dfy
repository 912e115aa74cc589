/** The callback loop of libmnl (`__mnl_cb_run`) and its default control callbacks. */
module Callback {
  import opened Wrappers
  import opened Bytes
  import opened Messages
  import opened AttrParser

  const NLMSG_NOOP := 1
  const NLMSG_OVERRUN := 4
  const NLMSG_MIN_TYPE := 0x10
  const NLMSG_ERR_SIZE := 20
  const INT_LIMIT: nat := 0x8000_0000

  const EINTR := 4
  const ESRCH := 3
  const EPROTO := 71
  const EBADMSG := 74

  /** The value of a 32-bit word read as a signed int. */
  function ToInt(x: u32): int { if x as int < INT_LIMIT then x as int else x as int - 2 * INT_LIMIT }

  /** mnl_nlmsg_ok, with its cast of nlmsg_len to int. */
  predicate NlmsgOk(nlmsgLen: u32, len: int) {
    len >= NLMSG_HDRLEN && nlmsgLen as int >= NLMSG_HDRLEN && ToInt(nlmsgLen) <= len
  }

  /** The test means "a whole message remains" exactly for lengths below 2^31. */
  lemma NlmsgOkIff(nlmsgLen: u32, len: int)
    requires NLMSG_HDRLEN <= len < INT_LIMIT
    ensures (NlmsgOk(nlmsgLen, len) <==> NLMSG_HDRLEN <= nlmsgLen as int <= len) <==> nlmsgLen as int < INT_LIMIT
  {
  }

  /** Every header that the walk reads has a length below 2^31. */
  ghost predicate SmallLengths(s: seq<byte>, pos: nat, end: nat)
    requires end <= |s|
    decreases end - pos
  {
    pos + NLMSG_HDRLEN <= end ==>
      Le32(s, pos) as int < INT_LIMIT && (MsgAt(s, pos, end) ==> SmallLengths(s, After(s, pos), end))
  }

  type MsgCb<!S> = (RawMsg, S) -> (int, S)

  /** The arguments of mnl_cb_run2.  A control array is used below `ctlLen` only. */
  datatype Env<!S> = Env(wantSeq: u32, wantPid: u32, data: Option<MsgCb<S>>, ctl: Option<seq<Option<MsgCb<S>>>>, ctlLen: nat) {
    ghost predicate Valid() { ctl.Some? ==> ctlLen <= |ctl.value| }
  }

  /** The running result: the last return code, errno, and the client's state. */
  datatype Run<S> = Run(ret: int, errno: int, st: S)

  /** A message that may not be handled: the errno to report. */
  function Refusal<S>(env: Env<S>, m: RawMsg): Option<int>
    requires m.Valid()
  {
    if m.Pid() != 0 && env.wantPid != 0 && m.Pid() != env.wantPid then Some(ESRCH)
    else if m.Seq() != 0 && env.wantSeq != 0 && m.Seq() != env.wantSeq then Some(EPROTO)
    else if m.Flags() as int / 0x10 % 2 == 1 then Some(EINTR)
    else None
  }

  /** mnl_cb_error: the return code and the errno it sets. */
  function CbError(m: RawMsg): (int, int)
    requires m.Valid()
  {
    if |m.bytes| < NLMSG_HDRLEN + NLMSG_ERR_SIZE then (CB_ERROR, EBADMSG)
    else
      var error := ToInt(Le32(m.bytes, NLMSG_HDRLEN));
      (if error == 0 then CB_STOP else CB_ERROR, if error < 0 then -error else error)
  }

  /** One message: whether the loop goes on, and the result so far. */
  function Dispatch<S>(env: Env<S>, m: RawMsg, r: Run<S>): (bool, Run<S>)
    requires env.Valid() && m.Valid()
  {
    var refusal := Refusal(env, m);
    if refusal.Some? then (false, Run(CB_ERROR, refusal.value, r.st))
    else if m.Type() as int >= NLMSG_MIN_TYPE then Call(env.data, m, r)
    else if m.Type() as int < env.ctlLen then
      if env.ctl.Some? then Call(env.ctl.value[m.Type()], m, r) else (true, r)
    else if m.Type() as int == NLMSG_ERROR then (false, Run(CbError(m).0, CbError(m).1, r.st))
    else if m.Type() as int == NLMSG_DONE then (false, r.(ret := CB_STOP))
    else if m.Type() as int in [NLMSG_NOOP, NLMSG_OVERRUN] then (true, r.(ret := CB_OK))
    else (true, r)
  }

  function Call<S>(cb: Option<MsgCb<S>>, m: RawMsg, r: Run<S>): (bool, Run<S>) {
    match cb
    case None => (true, r)
    case Some(f) => var (ret, st) := f(m, r.st); (ret > CB_STOP, Run(ret, r.errno, st))
  }

  /** The fold that the loop refines. */
  function RunAll<S>(env: Env<S>, ms: seq<RawMsg>, r: Run<S>): Run<S>
    requires env.Valid() && forall m <- ms :: m.Valid()
  {
    if ms == [] then r
    else
      var (more, r') := Dispatch(env, ms[0], r);
      if more then RunAll(env, ms[1..], r') else r'
  }

  /** __mnl_cb_run */
  method CbRun<S>(buf: array<byte>, numbytes: nat, env: Env<S>, errno: int, st: S) returns (r: Run<S>)
    requires env.Valid() && numbytes <= buf.Length && numbytes < INT_LIMIT
    requires SmallLengths(buf[..], 0, numbytes)
    ensures r == RunAll(env, Msgs(buf[..], 0, numbytes), Run(CB_OK, errno, st))
  {
    r := Run(CB_OK, errno, st);
    var pos, len := 0, numbytes as int;
    while len >= NLMSG_HDRLEN && NlmsgOk(Le32(buf[..], pos), len)
      invariant len == numbytes - pos
      invariant SmallLengths(buf[..], pos, numbytes)
      invariant RunAll(env, Msgs(buf[..], pos, numbytes), r) == RunAll(env, Msgs(buf[..], 0, numbytes), Run(CB_OK, errno, st))
      decreases len
    {
      NlmsgOkIff(Le32(buf[..], pos), len);
      var m := MsgFrom(buf[..], pos, numbytes);
      var refusal := Refusal(env, m);
      if refusal.Some? {
        return Run(CB_ERROR, refusal.value, r.st);
      }
      var cb: Option<MsgCb<S>> := None;
      if m.Type() as int >= NLMSG_MIN_TYPE {
        cb := env.data;
      } else if m.Type() as int < env.ctlLen {
        cb := if env.ctl.Some? then env.ctl.value[m.Type()] else None;
      } else if m.Type() as int == NLMSG_ERROR {
        var (ret, e) := CbError(m);
        return Run(ret, e, r.st);
      } else if m.Type() as int == NLMSG_DONE {
        return r.(ret := CB_STOP);
      } else if m.Type() as int in [NLMSG_NOOP, NLMSG_OVERRUN] {
        r := r.(ret := CB_OK);
      }
      if cb.Some? {
        var (ret, st') := cb.value(m, r.st);
        r := Run(ret, r.errno, st');
        if ret <= CB_STOP {
          return;
        }
      }
      len := len - Align(Le32(buf[..], pos));
      pos := After(buf[..], pos);
    }
    if len >= NLMSG_HDRLEN {
      NlmsgOkIff(Le32(buf[..], pos), len);
    }
  }

  /** Some message of the list ends the run. */
  predicate Halts<S>(env: Env<S>, ms: seq<RawMsg>, r: Run<S>)
    requires env.Valid() && forall m <- ms :: m.Valid()
  {
    ms != [] && var (more, r') := Dispatch(env, ms[0], r); !more || Halts(env, ms[1..], r')
  }

  /** Nothing after the message that ends the run is looked at; without such a message the run
      carries on from the state it reached. */
  lemma {:induction false} HaltCuts<S>(env: Env<S>, ms: seq<RawMsg>, later: seq<RawMsg>, r: Run<S>)
    requires env.Valid() && (forall m <- ms :: m.Valid()) && (forall m <- later :: m.Valid())
    ensures RunAll(env, ms + later, r) == if Halts(env, ms, r) then RunAll(env, ms, r) else RunAll(env, later, RunAll(env, ms, r))
    decreases |ms|
  {
    if ms == [] {
      assert ms + later == later;
    } else {
      assert (ms + later)[1..] == ms[1..] + later;
      var (more, r') := Dispatch(env, ms[0], r);
      if more {
        HaltCuts(env, ms[1..], later, r');
      }
    }
  }

  /** A run goes on after some messages exactly when its result so far is positive: nothing is
      called after the first answer of zero or less, refusals and errors included. */
  lemma {:induction false} StopsAtFirst<S>(env: Env<S>, ms: seq<RawMsg>, later: seq<RawMsg>, r: Run<S>)
    requires env.Valid() && (forall m <- ms :: m.Valid()) && (forall m <- later :: m.Valid()) && r.ret > 0
    ensures RunAll(env, ms + later, r) ==
            if RunAll(env, ms, r).ret <= 0 then RunAll(env, ms, r) else RunAll(env, later, RunAll(env, ms, r))
    decreases |ms|
  {
    if ms == [] {
      assert ms + later == later;
    } else {
      assert (ms + later)[0] == ms[0] && (ms + later)[1..] == ms[1..] + later;
      var (more, r') := Dispatch(env, ms[0], r);
      assert more <==> r'.ret > 0;
      if more {
        StopsAtFirst(env, ms[1..], later, r');
      }
    }
  }

  // ---------------------------------------------------------------- default callbacks

  /** What a message does to a run with the default control callbacks and a data callback that
      always continues. */
  datatype Effect = Go | Ack | Fail(errno: int)

  function EffectOf<S>(env: Env<S>, m: RawMsg): Effect
    requires m.Valid()
  {
    match Refusal(env, m)
    case Some(e) => Fail(e)
    case None =>
      if m.Type() as int == NLMSG_DONE then Ack
      else if m.Type() as int != NLMSG_ERROR then Go
      else if |m.bytes| < NLMSG_HDRLEN + NLMSG_ERR_SIZE then Fail(EBADMSG)
      else
        var error := ToInt(Le32(m.bytes, NLMSG_HDRLEN));
        if error == 0 then Ack else Fail(if error < 0 then -error else error)
  }

  function FirstStop<S>(env: Env<S>, ms: seq<RawMsg>): (n: nat)
    requires forall m <- ms :: m.Valid()
    ensures n <= |ms| && (forall i :: 0 <= i < n ==> EffectOf(env, ms[i]) == Go)
    ensures n < |ms| ==> EffectOf(env, ms[n]) != Go
  {
    if ms == [] || EffectOf(env, ms[0]) != Go then 0 else 1 + FirstStop(env, ms[1..])
  }

  ghost predicate Continues<S(!new)>(cb: Option<MsgCb<S>>) {
    cb.Some? ==> forall m, st :: cb.value(m, st).0 > CB_STOP
  }

  /** mnl_cb_run returns 0 exactly when the first stopping message is a DONE or a zero-error
      acknowledgement, -1 with that message's errno when it is a failure, and a positive code
      when no message stops the run. */
  lemma {:induction false} DefaultRun<S(!new)>(env: Env<S>, ms: seq<RawMsg>, r: Run<S>)
    requires env.Valid() && env.ctlLen == 0 && Continues(env.data) && r.ret > CB_STOP
    requires forall m <- ms :: m.Valid()
    ensures var k, r' := FirstStop(env, ms), RunAll(env, ms, r);
            && (k == |ms| ==> r'.ret > CB_STOP && r'.errno == r.errno)
            && (k < |ms| ==> match EffectOf(env, ms[k])
                             case Ack => r'.ret == CB_STOP
                             case Fail(e) => r'.ret == CB_ERROR && r'.errno == e
                             case Go => false)
    decreases |ms|
  {
    if ms != [] && EffectOf(env, ms[0]) == Go {
      DefaultRun(env, ms[1..], Dispatch(env, ms[0], r).1);
    }
  }

  // ---------------------------------------------------------------- one message, field by field

  /** A message laid out field by field. */
  function Laid(typ: u16, flags: u16, serial: u32, pid: u32, payload: seq<byte>): (m: RawMsg)
    requires NLMSG_HDRLEN + |payload| < 0x1_0000_0000
    ensures m.Valid()
  {
    RawMsg(0, Bytes32(NLMSG_HDRLEN + |payload|) + Bytes16(typ) + Bytes16(flags) + Bytes32(serial) + Bytes32(pid) + payload)
  }

  lemma LaidFields(typ: u16, flags: u16, serial: u32, pid: u32, payload: seq<byte>)
    requires NLMSG_HDRLEN + |payload| < 0x1_0000_0000
    ensures var m := Laid(typ, flags, serial, pid, payload);
            && m.Type() == typ && m.Flags() == flags && m.Seq() == serial && m.Pid() == pid
            && |m.bytes| == NLMSG_HDRLEN + |payload| && (|payload| >= 4 ==> Le32(m.bytes, NLMSG_HDRLEN) == Le32(payload, 0))
  {
    var b := Laid(typ, flags, serial, pid, payload).bytes;
    assert Le16(b, 4) == Le16(Bytes16(typ), 0) && Le16(b, 6) == Le16(Bytes16(flags), 0);
    assert Le32(b, 8) == Le32(Bytes32(serial), 0) && Le32(b, 12) == Le32(Bytes32(pid), 0);
  }

  /** What becomes of a run over one message, in the message's fields: it is refused for a port
      or a sequence number that is not the wanted one or for an interrupted dump, with nothing
      called; else it goes to the data callback, to a control callback, or to the default for its
      type, and errors are reported with their absolute value.  Without one the result so far
      stands. */
  lemma OneMessage<S>(env: Env<S>, typ: u16, flags: u16, serial: u32, pid: u32, payload: seq<byte>, ret: int, errno: int, st: S)
    requires env.Valid() && NLMSG_HDRLEN + |payload| < 0x1_0000_0000
    ensures var m := Laid(typ, flags, serial, pid, payload);
            var r := RunAll(env, [m], Run(ret, errno, st));
            if pid != 0 && env.wantPid != 0 && pid != env.wantPid then r == Run(-1, 3, st)
            else if serial != 0 && env.wantSeq != 0 && serial != env.wantSeq then r == Run(-1, 71, st)
            else if flags as int / 0x10 % 2 == 1 then r == Run(-1, 4, st)
            else if typ as int >= 16 then r == Answered(env.data, m, ret, errno, st)
            else if typ as int < env.ctlLen then r == if env.ctl.Some? then Answered(env.ctl.value[typ], m, ret, errno, st) else Run(ret, errno, st)
            else if typ as int == 2 then
              r == if |payload| < 20 then Run(-1, 74, st)
                   else if Le32(payload, 0) as int == 0 then Run(0, 0, st)
                   else if Le32(payload, 0) as int < 0x8000_0000 then Run(-1, Le32(payload, 0) as int, st)
                   else Run(-1, 0x1_0000_0000 - Le32(payload, 0) as int, st)
            else if typ as int == 3 then r == Run(0, errno, st)
            else r == Run(if typ as int in [1, 4] then 1 else ret, errno, st)
  {
    hide Laid;
    LaidFields(typ, flags, serial, pid, payload);
    OneRun(env, Laid(typ, flags, serial, pid, payload), Run(ret, errno, st));
  }

  /** A callback's answer and state, if there is one. */
  function Answered<S>(cb: Option<MsgCb<S>>, m: RawMsg, ret: int, errno: int, st: S): Run<S> {
    match cb
    case None => Run(ret, errno, st)
    case Some(f) => Run(f(m, st).0, errno, f(m, st).1)
  }

  // ---------------------------------------------------------------- a null control array

  /** The same call with a control array length of zero, which is what mnl_cb_run passes. */
  function WithoutLength<S>(env: Env<S>): Env<S> { env.(ctlLen := 0) }

  /** A bare header of the given type, from no one in particular. */
  function Bare(typ: u16): (m: RawMsg)
    ensures m.Valid() && m.Type() == typ && m.Flags() == 0 && m.Seq() == 0 && m.Pid() == 0
  {
    var h := Bytes32(NLMSG_HDRLEN) + Bytes16(typ) + [0, 0, 0, 0, 0, 0, 0, 0, 0, 0];
    assert Le16(h, 4) == Le16(Bytes16(typ), 0);
    RawMsg(0, h)
  }

  /** When the control array is null, its length does not matter, message by message, if and
      only if it is at most one: from two on, the no-op message is no longer dispatched, from
      three on errors and acknowledgements are not, and from four on DONE is not. */
  lemma NullArrayIff<S(!new)>(env: Env<S>, st: S)
    requires env.Valid() && env.ctl.None?
    ensures (forall m: RawMsg, r: Run<S> :: m.Valid() ==> Dispatch(env, m, r) == Dispatch(WithoutLength(env), m, r)) <==> env.ctlLen <= 1
  {
    if env.ctlLen > 1 {
      var m, r := Bare(NLMSG_NOOP), Run(CB_OK + 1, 0, st);
      assert Dispatch(env, m, r) == (true, r) && Dispatch(WithoutLength(env), m, r) == (true, r.(ret := CB_OK));
    }
  }

  /** A call of mnl_cb_run2 with a null array that is said to have `n` entries. */
  function NullArray<S>(env: Env<S>, data: Option<MsgCb<S>>, n: nat): (e: Env<S>)
    ensures e.Valid()
  {
    env.(data := data, ctl := None, ctlLen := n)
  }

  /** The run as __mnl_cb_run starts it. */
  function Started<S>(env: Env<S>, ms: seq<RawMsg>, errno: int, st: S): Run<S>
    requires env.Valid() && AllValid(ms)
  {
    RunAll(env, ms, Run(CB_OK, errno, st))
  }

  /** For every client and every message list the length makes no difference if and only if it
      is at most one: a data callback that answers 2 tells whether a no-op was dispatched. */
  lemma NullArrayRunIff<S(!new)>(env: Env<S>, n: nat, errno: int, st: S)
    ensures (forall data: Option<MsgCb<S>>, ms ::
               AllValid(ms) ==> Started(NullArray(env, data, n), ms, errno, st) == Started(NullArray(env, data, 0), ms, errno, st))
            <==> n <= 1
  {
    if n <= 1 {
      forall data: Option<MsgCb<S>>, ms | AllValid(ms)
        ensures Started(NullArray(env, data, n), ms, errno, st) == Started(NullArray(env, data, 0), ms, errno, st)
      {
        NullArrayIff(NullArray(env, data, n), st);
        SameRun(NullArray(env, data, n), ms, Run(CB_OK, errno, st));
      }
    } else {
      var data: Option<MsgCb<S>>, ms := Some((m, x) => (CB_OK + 1, x)), [Bare(NLMSG_MIN_TYPE), Bare(NLMSG_NOOP)];
      TwoRuns(NullArray(env, data, n), ms[0], ms[1], Run(CB_OK, errno, st));
      TwoRuns(NullArray(env, data, 0), ms[0], ms[1], Run(CB_OK, errno, st));
      assert AllValid(ms) && ms == [ms[0], ms[1]];
      assert Started(NullArray(env, data, n), ms, errno, st).ret == CB_OK + 1;
      assert Started(NullArray(env, data, 0), ms, errno, st).ret == CB_OK;
    }
  }

  lemma TwoRuns<S>(env: Env<S>, a: RawMsg, b: RawMsg, r: Run<S>)
    requires env.Valid() && a.Valid() && b.Valid()
    ensures var (more, r') := Dispatch(env, a, r);
            RunAll(env, [a, b], r) == if more then Dispatch(env, b, r').1 else r'
  {
    assert [a, b][1..] == [b] && [b][1..] == [];
    OneRun(env, b, Dispatch(env, a, r).1);
  }

  /** A client without a data callback cannot tell before errors go unnoticed: for it the length
      makes no difference if and only if it is at most two. */
  lemma NullArrayNoDataIff<S(!new)>(env: Env<S>, n: nat, errno: int, st: S)
    ensures (forall ms :: AllValid(ms) ==> Started(NullArray(env, None, n), ms, errno, st) == Started(NullArray(env, None, 0), ms, errno, st))
            <==> n <= 2
  {
    if n <= 2 {
      forall ms | AllValid(ms)
        ensures Started(NullArray(env, None, n), ms, errno, st) == Started(NullArray(env, None, 0), ms, errno, st)
      {
        SameWithoutData(env, n, ms, Run(CB_OK, errno, st));
      }
    } else {
      OneRun(NullArray(env, None, n), Bare(NLMSG_ERROR), Run(CB_OK, errno, st));
      OneRun(NullArray(env, None, 0), Bare(NLMSG_ERROR), Run(CB_OK, errno, st));
      assert AllValid([Bare(NLMSG_ERROR)]);
      assert Started(NullArray(env, None, n), [Bare(NLMSG_ERROR)], errno, st).ret == CB_OK;
      assert Started(NullArray(env, None, 0), [Bare(NLMSG_ERROR)], errno, st).ret == CB_ERROR;
    }
  }

  lemma {:induction false} SameWithoutData<S(!new)>(env: Env<S>, n: nat, ms: seq<RawMsg>, r: Run<S>)
    requires n <= 2 && AllValid(ms) && r.ret == CB_OK
    ensures RunAll(NullArray(env, None, n), ms, r) == RunAll(NullArray(env, None, 0), ms, r)
    decreases |ms|
  {
    if ms != [] {
      assert ms[0].Valid();
      SameWithoutData(env, n, ms[1..], r);
    }
  }

  predicate AllValid(ms: seq<RawMsg>) { forall m <- ms :: m.Valid() }

  lemma {:induction false} SameRun<S(!new)>(env: Env<S>, ms: seq<RawMsg>, r: Run<S>)
    requires env.Valid() && AllValid(ms)
    requires forall m: RawMsg, r': Run<S> :: m.Valid() ==> Dispatch(env, m, r') == Dispatch(WithoutLength(env), m, r')
    ensures RunAll(env, ms, r) == RunAll(WithoutLength(env), ms, r)
    decreases |ms|
  {
    if ms != [] {
      assert ms[0].Valid();
      SameRun(env, ms[1..], Dispatch(env, ms[0], r).1);
    }
  }

  lemma OneRun<S>(env: Env<S>, m: RawMsg, r: Run<S>)
    requires env.Valid() && m.Valid()
    ensures RunAll(env, [m], r) == Dispatch(env, m, r).1
  {
    assert [m][1..] == [];
  }

  /** With a null array of length four, a lone DONE does not end the run with 0. */
  lemma NullArrayMissesDone<S>(env: Env<S>, errno: int, st: S)
    requires env.ctl.None? && env.ctlLen == 4
    ensures RunAll(env, [Bare(NLMSG_DONE)], Run(CB_OK, errno, st)).ret == CB_OK
    ensures RunAll(WithoutLength(env), [Bare(NLMSG_DONE)], Run(CB_OK, errno, st)).ret == CB_STOP
  {
    OneRun(env, Bare(NLMSG_DONE), Run(CB_OK, errno, st));
    OneRun(WithoutLength(env), Bare(NLMSG_DONE), Run(CB_OK, errno, st));
  }
}
