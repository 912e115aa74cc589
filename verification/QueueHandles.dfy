/** The queue handles of libnetfilter_queue: a singly linked list changed in place, holding
    one handle for each queue that was created and not destroyed. */
module QueueHandles {
  import opened Wrappers
  import opened Bytes
  import opened AttrParser
  import opened Messages
  import opened Receive
  import opened AttrWire

  const ENODEV := 19
  const NFQNL_MSG_PACKET := 0

  /** A packet callback; a null function pointer is None. */
  type QueueCb<!S> = Option<(seq<byte>, Table, S) -> (int, S)>

  /** What the list stands for: the callback of every live queue. */
  type Live<!S> = map<u16, QueueCb<S>>

  /** struct nfq_q_handle */
  class QHandle<S> {
    const id: u16
    const cb: QueueCb<S>
    var next: QHandle?<S>

    constructor (id: u16, cb: QueueCb<S>)
      ensures this.id == id && this.cb == cb && next == null
    {
      this.id, this.cb, next := id, cb, null;
    }
  }

  ghost function LiveOf<S>(qs: seq<QHandle<S>>): Live<S> {
    if qs == [] then map[] else LiveOf(qs[1..])[qs[0].id := qs[0].cb]
  }

  ghost predicate DistinctIds<S>(qs: seq<QHandle<S>>) {
    forall i, j :: 0 <= i < j < |qs| ==> qs[i].id != qs[j].id
  }

  function At<S>(qs: seq<QHandle<S>>, i: nat): QHandle?<S> { if i < |qs| then qs[i] else null }

  /** Following `next` from `first` visits exactly `qs` and ends. */
  ghost predicate Chain<S>(first: QHandle?<S>, qs: seq<QHandle<S>>)
    reads qs
  {
    && first == At(qs, 0)
    && forall i {:trigger qs[i].next} :: 0 <= i < |qs| ==> qs[i].next == At(qs, i + 1)
  }

  /** __nfq_rcv_pkt as it is registered with the receive path. */
  function RcvCallback<S>(live: Live<S>): (seq<byte>, Table, S) -> (int, S) { (m, tb, st) => NfqRcv(live, m, tb, st) }

  /** One client call: the kernel's reply and the allocator's answer are inputs. */
  datatype QueueOp<!S> = Create(num: u16, cb: QueueCb<S>, memory: bool, reply: int) | Destroy(num: u16, reply: int)

  function StepLive<S>(live: Live<S>, op: QueueOp<S>): Live<S> {
    match op
    case Create(num, cb, memory, reply) => if num in live || !memory || reply < 0 then live else live[num := cb]
    case Destroy(num, reply) => if num in live && reply == 0 then live - {num} else live
  }

  function StepsLive<S>(live: Live<S>, ops: seq<QueueOp<S>>): Live<S>
    decreases |ops|
  {
    if ops == [] then live else StepsLive(StepLive(live, ops[0]), ops[1..])
  }

  /** Whether the kernel has just bound or unbound a queue, if the call got that far. */
  function Effect<S>(op: QueueOp<S>, num: u16): Option<bool> {
    match op
    case Create(n, _, memory, reply) => if n == num && memory && reply >= 0 then Some(true) else None
    case Destroy(n, reply) => if n == num && reply == 0 then Some(false) else None
  }

  /** __nfq_rcv_pkt on the live queues. */
  function NfqRcv<S>(live: Live<S>, m: seq<byte>, tb: Table, st: S): (int, S) {
    if |m| < NFGEN_LEN then (-ENODEV, st)
    else
      var num := Be16(m, 18);
      if num !in live || live[num].None? then (-ENODEV, st) else live[num].value(m, tb, st)
  }

  class NfqHandle<S> {
    var qhList: QHandle?<S>
    ghost var qs: seq<QHandle<S>>
    ghost var repr: set<object>

    ghost predicate Valid()
      reads this, qs
    {
      Chain(qhList, qs) && DistinctIds(qs) && this !in repr && forall i :: 0 <= i < |qs| ==> qs[i] in repr
    }

    constructor ()
      ensures Valid() && qs == [] && repr == {}
    {
      qhList, qs, repr := null, [], {};
    }

    /** find_qh */
    method FindQh(id: u16) returns (qh: QHandle?<S>)
      requires Valid()
      ensures qh == null <==> id !in LiveOf(qs)
      ensures qh != null ==> qh in qs && qh.id == id && LiveOf(qs)[id] == qh.cb
    {
      qh := qhList;
      ghost var i := 0;
      while qh != null
        invariant i <= |qs| && qh == At(qs, i)
        invariant forall j :: 0 <= j < i ==> qs[j].id != id
        decreases |qs| - i
      {
        if qh.id == id {
          LiveAt(qs, i);
          return;
        }
        qh := qh.next;
        i := i + 1;
      }
      NotLive(qs, id);
    }

    /** add_qh */
    method AddQh(qh: QHandle<S>)
      requires Valid() && qh !in qs && qh.id !in LiveOf(qs)
      modifies this, qh
      ensures Valid() && qs == [qh] + old(qs) && repr == old(repr) + {qh}
    {
      hide LiveOf, DistinctIds;
      DistinctAdded(qs, qh);
      repr := repr + {qh};
      ghost var was := qs;
      qh.next := qhList;
      qhList := qh;
      qs := [qh] + qs;
      forall i | 0 <= i < |qs|
        ensures qs[i].next == At(qs, i + 1)
      {
        assert i + 1 < |qs| ==> qs[i + 1] == was[i];
        if i > 0 {
          assert qs[i] == was[i - 1] && was[i - 1] in was;
          assert was[i - 1].next == old(was[i - 1].next) == At(was, i);
        }
      }
    }

    /** del_qh: walk to the handle, keeping the one before it, and unlink it.  A handle that is
        not in the list changes nothing. */
    method DelQh(qh: QHandle<S>) returns (ghost k: nat)
      requires Valid()
      modifies this, repr
      ensures Valid() && repr == old(repr)
      ensures qh in old(qs) ==> k < |old(qs)| && old(qs)[k] == qh && qs == RemoveAt(old(qs), k)
      ensures qh !in old(qs) ==> qs == old(qs)
    {
      var cur, prev;
      cur, prev, k := Walk(qh);
      if cur == qh {
        Unlink(qh, prev, k);
      }
    }

    method Walk(qh: QHandle<S>) returns (cur: QHandle?<S>, prev: QHandle?<S>, ghost k: nat)
      requires Valid()
      ensures k <= |qs| && cur == At(qs, k) && prev == (if k > 0 then qs[k - 1] else null)
      ensures cur == qh <==> qh in qs
    {
      hide DistinctIds;
      cur, prev, k := qhList, null, 0;
      while cur != null && cur != qh
        invariant k <= |qs| && cur == At(qs, k)
        invariant prev == if k > 0 then qs[k - 1] else null
        invariant forall i :: 0 <= i < k ==> qs[i] != qh
        decreases |qs| - k
      {
        prev := cur;
        cur := cur.next;
        k := k + 1;
      }
    }

    method Unlink(qh: QHandle<S>, prev: QHandle?<S>, ghost k: nat)
      requires Valid() && k < |qs| && qs[k] == qh && prev == if k > 0 then qs[k - 1] else null
      modifies this, repr
      ensures Valid() && qs == RemoveAt(old(qs), k) && repr == old(repr)
    {
      ghost var was := qs;
      DistinctWithout(was, k);
      hide RemoveAt;
      if prev != null {
        prev.next := qh.next;
      } else {
        qhList := qh.next;
      }
      qs := RemoveAt(qs, k);
      forall i | 0 <= i < |qs|
        ensures qs[i].next == At(qs, i + 1)
      {
        var j := if i < k then i else i + 1;
        assert old(was[j].next) == At(was, j + 1);
        assert 0 < k && j != k - 1 ==> was[j].id != was[k - 1].id;
      }
    }

    /** nfq_create_queue: refused when the queue exists, when memory or the kernel says no. */
    method CreateQueue(num: u16, cb: QueueCb<S>, memory: bool, reply: int) returns (qh: QHandle?<S>)
      requires Valid()
      modifies this
      ensures Valid() && fresh(repr - old(repr))
      ensures LiveOf(qs) == StepLive(old(LiveOf(qs)), Create(num, cb, memory, reply))
      ensures qh == null <==> num in old(LiveOf(qs)) || !memory || reply < 0
      ensures qh == null ==> qs == old(qs)
      ensures qh != null ==> qs == [qh] + old(qs) && qh.id == num
    {
      var found := FindQh(num);
      if found != null || !memory {
        return null;
      }
      if reply < 0 {
        return null;
      }
      qh := new QHandle(num, cb);
      AddQh(qh);
    }

    /** nfq_destroy_queue: the handle stays unless the kernel answered zero. */
    method DestroyQueue(qh: QHandle<S>, reply: int) returns (ret: int)
      requires Valid() && qh in qs
      modifies this, repr
      ensures Valid() && ret == reply && repr == old(repr)
      ensures LiveOf(qs) == StepLive(old(LiveOf(qs)), Destroy(qh.id, reply))
    {
      ghost var i :| 0 <= i < |qs| && qs[i] == qh;
      LiveAt(qs, i);
      if reply == 0 {
        ghost var was := qs;
        ghost var k := DelQh(qh);
        LiveWithout(was, k);
      }
      ret := reply;
    }

    /** __nfq_rcv_pkt */
    method RcvPkt(m: seq<byte>, tb: Table, st: S) returns (ret: int, st': S)
      requires Valid() && |m| >= NFGEN_LEN
      ensures (ret, st') == NfqRcv(LiveOf(qs), m, tb, st)
    {
      var qh := FindQh(Be16(m, 18));
      if qh == null {
        return -ENODEV, st;
      }
      if qh.cb.None? {
        return -ENODEV, st;
      }
      var (r, s) := qh.cb.value(m, tb, st);
      ret, st' := r, s;
    }

    /** Any run of creations and destructions, by clients that hold their handles. */
    method Perform(ops: seq<QueueOp<S>>)
      requires Valid()
      modifies this, repr
      ensures Valid() && LiveOf(qs) == StepsLive(old(LiveOf(qs)), ops)
    {
      var i := 0;
      while i < |ops|
        invariant 0 <= i <= |ops| && Valid()
        invariant fresh(repr - old(repr))
        invariant StepsLive(LiveOf(qs), ops[i..]) == StepsLive(old(LiveOf(qs)), ops)
      {
        assert ops[i..][0] == ops[i] && ops[i..][1..] == ops[i + 1..];
        PerformOne(ops[i]);
        i := i + 1;
      }
    }

    /** A whole session on a new handle: any run of calls, then one packet message.  It is
        answered as the call that made its queue says. */
    static method Session(ops: seq<QueueOp<S>>, m: seq<byte>, tb: Table, st: S) returns (ret: int, st': S)
      requires |m| >= NFGEN_LEN
      ensures forall j {:trigger MadeBy(ops, Be16(m, 18), j)} :: MadeBy(ops, Be16(m, 18), j) ==>
                (ret, st') == if ops[j].cb.Some? then ops[j].cb.value(m, tb, st) else (-19, st)
      ensures (forall j :: !MadeBy(ops, Be16(m, 18), j)) ==> (ret, st') == (-19, st)
    {
      var h := new NfqHandle<S>();
      h.Perform(ops);
      ret, st' := h.RcvPkt(m, tb, st);
      RcvAfterRun(ops, m, tb, st);
    }

    method PerformOne(op: QueueOp<S>)
      requires Valid()
      modifies this, repr
      ensures Valid() && LiveOf(qs) == StepLive(old(LiveOf(qs)), op) && fresh(repr - old(repr))
    {
      match op {
        case Create(num, cb, memory, reply) =>
          var _ := CreateQueue(num, cb, memory, reply);
        case Destroy(num, reply) =>
          var qh := FindQh(num);
          if qh != null {
            var _ := DestroyQueue(qh, reply);
          }
      }
    }
  }

  // ---------------------------------------------------------------- lists and maps

  lemma {:induction false} LiveAt<S>(qs: seq<QHandle<S>>, i: nat)
    requires DistinctIds(qs) && i < |qs|
    ensures qs[i].id in LiveOf(qs) && LiveOf(qs)[qs[i].id] == qs[i].cb
    decreases |qs|
  {
    if i > 0 {
      LiveAt(qs[1..], i - 1);
    }
  }

  lemma DistinctAdded<S>(qs: seq<QHandle<S>>, qh: QHandle<S>)
    requires DistinctIds(qs) && qh.id !in LiveOf(qs)
    ensures DistinctIds([qh] + qs)
  {
    FreshId(qs, qh.id);
  }

  lemma DistinctWithout<S>(qs: seq<QHandle<S>>, k: nat)
    requires DistinctIds(qs) && k < |qs|
    ensures DistinctIds(RemoveAt(qs, k))
  {
  }

  lemma FreshId<S>(qs: seq<QHandle<S>>, id: u16)
    requires DistinctIds(qs) && id !in LiveOf(qs)
    ensures forall i :: 0 <= i < |qs| ==> qs[i].id != id
  {
    forall i | 0 <= i < |qs|
      ensures qs[i].id != id
    {
      LiveAt(qs, i);
    }
  }

  lemma {:induction false} NotLive<S>(qs: seq<QHandle<S>>, id: u16)
    requires forall j :: 0 <= j < |qs| ==> qs[j].id != id
    ensures id !in LiveOf(qs)
    decreases |qs|
  {
    if qs != [] {
      NotLive(qs[1..], id);
    }
  }

  lemma {:induction false} LiveWithout<S>(qs: seq<QHandle<S>>, k: nat)
    requires DistinctIds(qs) && k < |qs|
    ensures LiveOf(RemoveAt(qs, k)) == LiveOf(qs) - {qs[k].id}
    decreases |qs|
  {
    if k == 0 {
      assert RemoveAt(qs, 0) == qs[1..];
      NotLive(qs[1..], qs[0].id);
    } else {
      assert RemoveAt(qs, k)[1..] == RemoveAt(qs[1..], k - 1);
      LiveWithout(qs[1..], k - 1);
    }
  }

  // ---------------------------------------------------------------- packets after a run

  /** Call `j` made the queue what it is at the end of the run: it bound the queue, no later call
      unbound it, and every earlier binding was undone before it. */
  ghost predicate MadeBy<S>(ops: seq<QueueOp<S>>, num: u16, j: int) {
    && 0 <= j < |ops| && Effect(ops[j], num) == Some(true)
    && (forall k {:trigger ops[k]} :: j < k < |ops| ==> Effect(ops[k], num) != Some(false))
    && UndoneBefore(ops, num, j)
  }

  /** Every binding among the first `n` calls has been undone among them. */
  ghost predicate UndoneBefore<S>(ops: seq<QueueOp<S>>, num: u16, n: nat)
    requires n <= |ops|
  {
    forall i :: 0 <= i < n && Effect(ops[i], num) == Some(true) ==> exists k :: i < k < n && Effect(ops[k], num) == Some(false)
  }

  lemma MadeOnce<S>(ops: seq<QueueOp<S>>, num: u16, i: int, j: int)
    requires MadeBy(ops, num, i) && MadeBy(ops, num, j)
    ensures i == j
  {
  }

  lemma {:induction false} StepsLast<S>(live: Live<S>, ops: seq<QueueOp<S>>, op: QueueOp<S>)
    ensures StepsLive(live, ops + [op]) == StepLive(StepsLive(live, ops), op)
    decreases |ops|
  {
    if ops == [] {
      assert ops + [op] == [op] && [op][1..] == [];
    } else {
      assert (ops + [op])[0] == ops[0] && (ops + [op])[1..] == ops[1..] + [op];
      StepsLast(StepLive(live, ops[0]), ops[1..], op);
    }
  }

  lemma {:induction false} MadeOrUndone<S>(ops: seq<QueueOp<S>>, num: u16)
    ensures var live := StepsLive(map[], ops);
            if num in live then exists j :: MadeBy(ops, num, j) && live[num] == ops[j].cb
            else UndoneBefore(ops, num, |ops|)
    decreases |ops|
  {
    if ops != [] {
      var n := |ops| - 1;
      var before, op := ops[..n], ops[n];
      MadeOrUndone(before, num);
      StepsLast(map[], before, op);
      assert before + [op] == ops;
      MadeNext(before, op, num);
    }
  }

  /** After any run from no queues a queue is live exactly when some call made it, and then it
      has that call's callback. */
  lemma LiveIff<S>(ops: seq<QueueOp<S>>, num: u16)
    ensures num in StepsLive(map[], ops) <==> exists j :: MadeBy(ops, num, j)
    ensures forall j :: MadeBy(ops, num, j) ==> num in StepsLive(map[], ops) && StepsLive(map[], ops)[num] == ops[j].cb
  {
    hide StepsLive;
    var live := StepsLive(map[], ops);
    MadeOrUndone(ops, num);
    forall j | MadeBy(ops, num, j)
      ensures num in live && live[num] == ops[j].cb
    {
      if num in live {
        var i :| MadeBy(ops, num, i) && live[num] == ops[i].cb;
        MadeOnce(ops, num, i, j);
      } else {
        NotUndone(ops, num, j);
      }
    }
  }

  lemma NotUndone<S>(ops: seq<QueueOp<S>>, num: u16, j: int)
    requires MadeBy(ops, num, j)
    ensures !UndoneBefore(ops, num, |ops|)
  {
  }

  lemma MadeNext<S>(ops: seq<QueueOp<S>>, op: QueueOp<S>, num: u16)
    requires var live := StepsLive(map[], ops);
             if num in live then exists j :: MadeBy(ops, num, j) && live[num] == ops[j].cb
             else UndoneBefore(ops, num, |ops|)
    ensures var live, all := StepLive(StepsLive(map[], ops), op), ops + [op];
            if num in live then exists j :: MadeBy(all, num, j) && live[num] == all[j].cb
            else UndoneBefore(all, num, |all|)
  {
    hide StepsLive;
    var live, all, n := StepsLive(map[], ops), ops + [op], |ops|;
    if num in live {
      var j :| MadeBy(ops, num, j) && live[num] == ops[j].cb;
      if Effect(op, num) == Some(false) {
        assert Effect(all[n], num) == Some(false);
      } else {
        MadeStays(ops, op, num, j);
      }
    } else if Effect(op, num) == Some(true) {
      UndoneStays(ops, op, num, n);
      assert MadeBy(all, num, n);
    } else {
      UndoneStays(ops, op, num, n);
    }
  }

  lemma MadeStays<S>(ops: seq<QueueOp<S>>, op: QueueOp<S>, num: u16, j: int)
    requires MadeBy(ops, num, j) && Effect(op, num) != Some(false)
    ensures MadeBy(ops + [op], num, j) && (ops + [op])[j] == ops[j]
  {
    UndoneStays(ops, op, num, j);
  }

  lemma UndoneStays<S>(ops: seq<QueueOp<S>>, op: QueueOp<S>, num: u16, n: nat)
    requires n <= |ops| && UndoneBefore(ops, num, n)
    ensures UndoneBefore(ops + [op], num, n)
  {
    var all := ops + [op];
    forall i | 0 <= i < n && Effect(all[i], num) == Some(true)
      ensures exists k :: i < k < n && Effect(all[k], num) == Some(false)
    {
      assert all[i] == ops[i];
      var k :| i < k < n && Effect(ops[k], num) == Some(false);
      assert all[k] == ops[k];
    }
  }

  /** After any run of creations and destructions, a packet message that the receive path hands
      to __nfq_rcv_pkt is answered by the callback of the call that made its queue.  When no call
      made it, or made it without a callback, the answer is -ENODEV and nothing else happens. */
  lemma PacketReachesQueue<S>(h: Handle<S>, ops: seq<QueueOp<S>>, m: seq<byte>, st: S)
    requires |h| == NFNL_MAX_SUBSYS + 1 && |h[NFNL_SUBSYS_QUEUE]| > NFQNL_MSG_PACKET
    requires h[NFNL_SUBSYS_QUEUE][NFQNL_MSG_PACKET] == NfnlCallback(NFQA_MAX, Some(RcvCallback(StepsLive(map[], ops))))
    requires |m| >= NFGEN_LEN && SubsysId(m) == NFNL_SUBSYS_QUEUE && MsgType(m) == NFQNL_MSG_PACKET
    ensures forall j {:trigger MadeBy(ops, Be16(m, 18), j)} :: MadeBy(ops, Be16(m, 18), j) ==>
              Handled(h, m, st) == if ops[j].cb.Some? then ops[j].cb.value(m, TableOf(Attrs(m, NFGEN_LEN, |m|), NFQA_MAX), st)
                                   else (-19, st)
    ensures (forall j :: !MadeBy(ops, Be16(m, 18), j)) ==> Handled(h, m, st) == (-19, st)
  {
    var cb := h[NFNL_SUBSYS_QUEUE][NFQNL_MSG_PACKET];
    var tb := TableOf(Attrs(m, NFGEN_LEN, |m|), NFQA_MAX);
    assert Handled(h, m, st) == cb.call.value(m, tb, st) == NfqRcv(StepsLive(map[], ops), m, tb, st);
    RcvAfterRun(ops, m, tb, st);
  }

  lemma RcvAfterRun<S>(ops: seq<QueueOp<S>>, m: seq<byte>, tb: Table, st: S)
    requires |m| >= NFGEN_LEN
    ensures forall j {:trigger MadeBy(ops, Be16(m, 18), j)} :: MadeBy(ops, Be16(m, 18), j) ==>
              NfqRcv(StepsLive(map[], ops), m, tb, st) == if ops[j].cb.Some? then ops[j].cb.value(m, tb, st) else (-ENODEV, st)
    ensures (forall j :: !MadeBy(ops, Be16(m, 18), j)) ==> NfqRcv(StepsLive(map[], ops), m, tb, st) == (-ENODEV, st)
  {
    LiveIff(ops, Be16(m, 18));
  }
}
