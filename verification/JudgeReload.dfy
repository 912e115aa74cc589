/** The rule judge while control threads reload the rules: one filter thread and any number of
    loading threads, each taking one step at a time.  A rule set lives at an address; a freed
    address may be given out again, and a step that touches a freed one is a fault. */
module JudgeReload {
  import opened Wrappers
  import opened Rules

  type Address = nat

  datatype Call = Call(packet: Packet, now: nat)

  /** Where the filter thread stands in Judge::judge. */
  datatype FilterPc =
    | Idle
    | Entered(call: Call)
    | Waiting(call: Call)
    | Locked(call: Call)
    | Checking(call: Call, at: Address, i: nat, black: bool, white: bool)
    | Checked(call: Call, verdict: bool)
    | Returned(call: Call, verdict: bool)

  /** Where a loading thread stands in loadConfigFromJson, with the set it has built. */
  datatype LoaderPc = Away | Built(mine: Address) | Holding(mine: Address) | Deleted(mine: Address) | Swapped

  datatype Owner = Nobody | Filter | Loader(id: nat)

  datatype State = State(
    enabled: bool, rules: Address, heap: map<Address, seq<Rule>>, mutex: Owner,
    filter: FilterPc, loaders: map<nat, LoaderPc>, fault: bool)
  {
    function Pc(id: nat): LoaderPc { if id in loaders then loaders[id] else Away }

    function Move(id: nat, pc: LoaderPc): (s: State)
      ensures s.Pc(id) == pc && forall k :: k != id ==> s.Pc(k) == Pc(k)
    {
      this.(loaders := loaders[id := pc])
    }
  }

  datatype Step =
    | Begin(call: Call) | ReadFlag | FilterLock | ReadPointer | CheckRule | FinishCheck | FilterUnlock | Leave
    | SetEnabled(on: bool)
    | Build(id: nat, where: Address, parsed: seq<Rule>) | LoaderLock(id: nat) | Delete(id: nat) | Assign(id: nat) | LoaderUnlock(id: nat)

  // ---------------------------------------------------------------- the steps

  /** One step of the filter thread, if it can take it. */
  function FilterStep(s: State, step: Step): Option<State> {
    match (step, s.filter)
    case (Begin(call), Idle) => Some(s.(filter := Entered(call)))
    case (ReadFlag, Entered(call)) => Some(s.(filter := if s.enabled then Waiting(call) else Returned(call, true)))
    case (FilterLock, Waiting(call)) => if s.mutex.Nobody? then Some(s.(mutex := Filter, filter := Locked(call))) else None
    case (ReadPointer, Locked(call)) => Some(s.(filter := Checking(call, s.rules, 0, false, false)))
    case (CheckRule, Checking(call, at, i, black, white)) =>
      if at !in s.heap then Some(s.(fault := true))
      else if i >= |s.heap[at]| then None
      else Some(s.(filter := Judged(call, at, i, black, white, s.heap[at][i])))
    case (FinishCheck, Checking(call, at, i, black, white)) =>
      if at !in s.heap then Some(s.(fault := true))
      else if i < |s.heap[at]| then None
      else Some(s.(filter := Checked(call, white || !black)))
    case (FilterUnlock, Checked(call, verdict)) => Some(s.(mutex := Nobody, filter := Returned(call, verdict)))
    case (Leave, Returned(_, _)) => Some(s.(filter := Idle))
    case _ => None
  }

  /** The loop body of RuleCollection::check. */
  function Judged(call: Call, at: Address, i: nat, black: bool, white: bool, r: Rule): FilterPc {
    if r.typ == TYPE_BLACK_LIST then Checking(call, at, i + 1, black || Matches(r, call.packet, call.now), white)
    else if r.typ == TYPE_WHITE_LIST then Checking(call, at, i + 1, black, white || Matches(r, call.packet, call.now))
    else Checking(call, at, i + 1, black, white)
  }

  /** One step of another thread.  The new set may be built at any free address. */
  function OtherStep(s: State, step: Step): Option<State> {
    match step
    case SetEnabled(on) => Some(s.(enabled := on))
    case Build(id, where, parsed) =>
      if s.Pc(id).Away? && where !in s.heap then Some(s.(heap := s.heap[where := parsed]).Move(id, Built(where))) else None
    case LoaderLock(id) =>
      if s.Pc(id).Built? && s.mutex.Nobody? then Some(s.(mutex := Loader(id)).Move(id, Holding(s.Pc(id).mine))) else None
    case Delete(id) =>
      if !s.Pc(id).Holding? then None
      else if s.rules !in s.heap then Some(s.(fault := true))
      else Some(s.(heap := s.heap - {s.rules}).Move(id, Deleted(s.Pc(id).mine)))
    case Assign(id) =>
      if s.Pc(id).Deleted? then Some(s.(rules := s.Pc(id).mine).Move(id, Swapped)) else None
    case LoaderUnlock(id) =>
      if s.Pc(id).Swapped? then Some(s.(mutex := Nobody).Move(id, Away)) else None
    case _ => None
  }

  predicate ByFilter(step: Step) {
    !(step.SetEnabled? || step.Build? || step.LoaderLock? || step.Delete? || step.Assign? || step.LoaderUnlock?)
  }

  function Next(s: State, step: Step): Option<State> { if ByFilter(step) then FilterStep(s, step) else OtherStep(s, step) }

  /** After RuleManager::init, before any thread has started. */
  predicate Initial(s: State) {
    s.enabled && s.rules in s.heap && s.mutex.Nobody? && s.filter.Idle? && s.loaders == map[] && !s.fault
  }

  ghost predicate Run(states: seq<State>, steps: seq<Step>) {
    && |states| == |steps| + 1 && Initial(states[0])
    && forall k :: 0 <= k < |steps| ==> Next(states[k], steps[k]) == Some(states[k + 1])
  }

  // ---------------------------------------------------------------- the invariant

  predicate InLock(pc: LoaderPc) { pc.Holding? || pc.Deleted? || pc.Swapped? }

  predicate Owns(pc: LoaderPc) { pc.Built? || pc.Holding? || pc.Deleted? }

  /** The mutex says who is between lock and unlock. */
  ghost predicate Exclusive(s: State) {
    && (s.mutex.Filter? <==> s.filter.Locked? || s.filter.Checking? || s.filter.Checked?)
    && forall id: nat :: InLock(s.Pc(id)) <==> s.mutex == Loader(id)
  }

  /** The current set is live, except while its deleter holds the mutex. */
  ghost predicate Live(s: State) { s.rules in s.heap || (s.mutex.Loader? && s.Pc(s.mutex.id).Deleted?) }

  /** Every built set is live, has one builder, and is not the current one. */
  ghost predicate Apart(s: State) {
    && (forall id: nat :: Owns(s.Pc(id)) ==> s.Pc(id).mine in s.heap)
    && (forall a: nat, b: nat :: a != b && Owns(s.Pc(a)) && Owns(s.Pc(b)) ==> s.Pc(a).mine != s.Pc(b).mine)
    && ((s.mutex.Loader? && s.Pc(s.mutex.id).Deleted?) || forall id: nat :: Owns(s.Pc(id)) ==> s.Pc(id).mine != s.rules)
  }

  ghost predicate Seen(rs: seq<Rule>, i: nat, typ: int, call: Call) {
    exists k :: 0 <= k < i && k < |rs| && rs[k].typ as int == typ && Matches(rs[k], call.packet, call.now)
  }

  /** What the filter thread has found out so far, about the set that is current now. */
  ghost predicate Sound(s: State) {
    && (s.filter.Checking? ==>
          && s.filter.at == s.rules && s.rules in s.heap && s.filter.i <= |s.heap[s.rules]|
          && (s.filter.black <==> Seen(s.heap[s.rules], s.filter.i, TYPE_BLACK_LIST, s.filter.call))
          && (s.filter.white <==> Seen(s.heap[s.rules], s.filter.i, TYPE_WHITE_LIST, s.filter.call)))
    && (s.filter.Checked? ==> s.rules in s.heap && (s.filter.verdict <==> Accepts(s.heap[s.rules], s.filter.call.packet, s.filter.call.now)))
  }

  ghost predicate Inv(s: State) { !s.fault && Exclusive(s) && Live(s) && Apart(s) && Sound(s) }

  lemma SeenNext(rs: seq<Rule>, i: nat, typ: int, call: Call)
    requires i < |rs|
    ensures Seen(rs, i + 1, typ, call) <==> Seen(rs, i, typ, call) || (rs[i].typ as int == typ && Matches(rs[i], call.packet, call.now))
  {
  }

  lemma SeenAll(rs: seq<Rule>, call: Call)
    ensures Accepts(rs, call.packet, call.now) <==> Seen(rs, |rs|, TYPE_WHITE_LIST, call) || !Seen(rs, |rs|, TYPE_BLACK_LIST, call)
  {
    if Seen(rs, |rs|, TYPE_WHITE_LIST, call) {
      var k :| 0 <= k < |rs| && rs[k].typ == TYPE_WHITE_LIST && Matches(rs[k], call.packet, call.now);
      assert rs[k] in rs;
    }
    if Seen(rs, |rs|, TYPE_BLACK_LIST, call) {
      var k :| 0 <= k < |rs| && rs[k].typ == TYPE_BLACK_LIST && Matches(rs[k], call.packet, call.now);
      assert rs[k] in rs;
    }
  }

  lemma InvInitial(s: State)
    requires Initial(s)
    ensures Inv(s)
  {
  }

  lemma InvFilter(s: State, step: Step, s': State)
    requires Inv(s) && FilterStep(s, step) == Some(s')
    ensures Inv(s')
  {
    if s.filter.Checking? {
      var rs := s.heap[s.rules];
      if step.CheckRule? {
        SeenNext(rs, s.filter.i, TYPE_BLACK_LIST, s.filter.call);
        SeenNext(rs, s.filter.i, TYPE_WHITE_LIST, s.filter.call);
      } else if step.FinishCheck? {
        SeenAll(rs, s.filter.call);
      }
    }
    assert forall id: nat :: s'.Pc(id) == s.Pc(id);
  }

  lemma InvOther(s: State, step: Step, s': State)
    requires Inv(s) && OtherStep(s, step) == Some(s')
    ensures Inv(s')
  {
    if step.SetEnabled? {
      assert forall id: nat :: s'.Pc(id) == s.Pc(id);
    }
  }

  lemma InvNext(s: State, step: Step, s': State)
    requires Inv(s) && Next(s, step) == Some(s')
    ensures Inv(s')
  {
    if ByFilter(step) {
      InvFilter(s, step, s');
    } else {
      InvOther(s, step, s');
    }
  }

  /** No step of any run touches a deleted rule set. */
  lemma {:induction false} NoFault(states: seq<State>, steps: seq<Step>, k: nat)
    requires Run(states, steps) && k < |states|
    ensures Inv(states[k]) && !states[k].fault
    decreases k
  {
    if k == 0 {
      InvInitial(states[0]);
    } else {
      NoFault(states, steps, k - 1);
      InvNext(states[k - 1], steps[k - 1], states[k]);
    }
  }

  /** Every rule set that a step reads or deletes is there when it does. */
  lemma TouchesLive(states: seq<State>, steps: seq<Step>, k: nat)
    requires Run(states, steps) && k < |steps|
    ensures steps[k].CheckRule? || steps[k].FinishCheck? ==> states[k].filter.Checking? && states[k].filter.at in states[k].heap
    ensures steps[k].Delete? ==> states[k].rules in states[k].heap
  {
    NoFault(states, steps, k);
    assert Next(states[k], steps[k]) == Some(states[k + 1]);
  }

  // ---------------------------------------------------------------- verdicts of a run

  /** From `j` to `k` one call is in progress. */
  ghost predicate InCall(states: seq<State>, j: nat, k: nat, call: Call)
    requires j <= k < |states|
  {
    forall i :: j <= i <= k ==> !states[i].filter.Idle? && states[i].filter.call == call
  }

  /** From `j` to `k` the rule set `rs` stays current, live and unchanged. */
  ghost predicate Current(states: seq<State>, j: nat, k: nat, rs: seq<Rule>)
    requires j <= k < |states|
  {
    forall i :: j <= i <= k ==>
      states[i].rules == states[j].rules && states[i].rules in states[i].heap && states[i].heap[states[i].rules] == rs
  }

  /** The call has read `enabled` at step `j` and found it off. */
  ghost predicate SawOff(states: seq<State>, j: nat, k: nat, call: Call)
    requires k < |states|
  {
    j < k && InCall(states, j, k, call) && states[j].filter.Entered? && !states[j].enabled && !states[j + 1].filter.Entered?
  }

  /** The call has read `enabled` at step `j` and found it on. */
  ghost predicate SawOn(states: seq<State>, j: nat, k: nat, call: Call)
    requires k < |states|
  {
    j < k && InCall(states, j, k, call) && states[j].filter.Entered? && states[j].enabled && !states[j + 1].filter.Entered?
  }

  ghost predicate WasOn(states: seq<State>, k: nat, call: Call)
    requires k < |states|
  {
    exists j :: SawOn(states, j, k, call)
  }

  /** The call, having found filtering on, took the lock at step `j`, and `rs` has been current
      since. */
  ghost predicate HeldSince(states: seq<State>, j: nat, k: nat, call: Call, rs: seq<Rule>)
    requires k < |states|
  {
    j <= k && InCall(states, j, k, call) && states[j].filter.Locked? && WasOn(states, j, call) && Current(states, j, k, rs)
  }

  /** Within the call, `rs` was current from the lock at `j` to the end of the check at `e`. */
  ghost predicate CheckedDuring(states: seq<State>, j: nat, e: nat, k: nat, call: Call, rs: seq<Rule>)
    requires k < |states|
  {
    e < k && HeldSince(states, j, e, call, rs) && states[e].filter.Checked? && InCall(states, e, k, call)
  }

  /** Why the filter thread may answer `verdict` at step `k`. */
  ghost predicate Justified(states: seq<State>, k: nat, call: Call, verdict: bool)
    requires k < |states|
  {
    || (verdict && exists j :: SawOff(states, j, k, call))
    || exists j, e, rs :: CheckedDuring(states, j, e, k, call, rs) && (verdict <==> Accepts(rs, call.packet, call.now))
  }

  /** What the past of a step must hold, by where the filter thread stands. */
  ghost predicate Story(states: seq<State>, k: nat)
    requires k < |states|
  {
    match states[k].filter
    case Waiting(call) => WasOn(states, k, call)
    case Locked(call) => exists j, rs :: HeldSince(states, j, k, call, rs)
    case Checking(call, _, _, _, _) => exists j, rs :: HeldSince(states, j, k, call, rs)
    case Checked(call, _) => exists j, rs :: HeldSince(states, j, k, call, rs)
    case Returned(call, verdict) => Justified(states, k, call, verdict)
    case _ => true
  }

  /** While the filter thread holds the mutex, no step changes the current rule set. */
  lemma HeldStays(s: State, step: Step, s': State)
    requires Inv(s) && s.mutex.Filter? && Next(s, step) == Some(s')
    ensures s'.rules == s.rules && s.rules in s.heap && s.rules in s'.heap && s'.heap[s.rules] == s.heap[s.rules]
  {
  }

  lemma HeldNext(states: seq<State>, steps: seq<Step>, j: nat, k: nat, call: Call, rs: seq<Rule>)
    requires Run(states, steps) && k < |steps| && HeldSince(states, j, k, call, rs)
    requires Inv(states[k]) && states[k].mutex.Filter?
    requires !states[k + 1].filter.Idle? && states[k + 1].filter.call == call
    ensures HeldSince(states, j, k + 1, call, rs)
  {
    HeldStays(states[k], steps[k], states[k + 1]);
  }

  lemma JustifiedNext(states: seq<State>, steps: seq<Step>, k: nat, call: Call, verdict: bool)
    requires Run(states, steps) && k < |steps| && Justified(states, k, call, verdict)
    requires states[k + 1].filter == Returned(call, verdict)
    ensures Justified(states, k + 1, call, verdict)
  {
    hide Next;
    if verdict && exists j :: SawOff(states, j, k, call) {
      var j :| SawOff(states, j, k, call);
      assert SawOff(states, j, k + 1, call);
    } else {
      var j, e, rs :| CheckedDuring(states, j, e, k, call, rs) && (verdict <==> Accepts(rs, call.packet, call.now));
      assert CheckedDuring(states, j, e, k + 1, call, rs);
    }
  }

  lemma HeldFirst(states: seq<State>, k: nat, call: Call)
    requires k < |states| && states[k].filter == Locked(call) && Inv(states[k]) && WasOn(states, k, call)
    ensures exists rs :: HeldSince(states, k, k, call, rs)
  {
    assert HeldSince(states, k, k, call, states[k].heap[states[k].rules]);
  }

  lemma OffJustifies(states: seq<State>, k: nat, call: Call)
    requires k + 1 < |states| && states[k].filter == Entered(call) && !states[k].enabled && states[k + 1].filter == Returned(call, true)
    ensures Justified(states, k + 1, call, true)
  {
    assert SawOff(states, k, k + 1, call);
  }

  lemma WasOnNext(states: seq<State>, k: nat, call: Call)
    requires k + 1 < |states| && states[k].filter.Waiting? && WasOn(states, k, call)
    requires !states[k + 1].filter.Idle? && states[k + 1].filter.call == call
    ensures WasOn(states, k + 1, call)
  {
    var j :| SawOn(states, j, k, call);
    assert SawOn(states, j, k + 1, call);
  }

  lemma OnWaits(states: seq<State>, k: nat, call: Call)
    requires k + 1 < |states| && states[k].filter == Entered(call) && states[k].enabled && states[k + 1].filter == Waiting(call)
    ensures WasOn(states, k + 1, call)
  {
    assert SawOn(states, k, k + 1, call);
  }

  lemma CheckJustifies(states: seq<State>, j: nat, k: nat, call: Call, rs: seq<Rule>)
    requires k + 1 < |states| && HeldSince(states, j, k, call, rs) && Inv(states[k])
    requires states[k].filter.Checked? && states[k + 1].filter == Returned(call, states[k].filter.verdict)
    ensures Justified(states, k + 1, call, states[k].filter.verdict)
  {
    assert CheckedDuring(states, j, k, k + 1, call, rs);
  }

  lemma StoryNext(states: seq<State>, steps: seq<Step>, k: nat)
    requires Run(states, steps) && k < |steps| && Inv(states[k]) && Inv(states[k + 1]) && Story(states, k)
    ensures Story(states, k + 1)
  {
    hide Sound, Apart, Live, Accepts, HeldSince, Justified, WasOn;
    var s, s' := states[k], states[k + 1];
    match s'.filter
    case Waiting(call) =>
      if s.filter.Waiting? {
        WasOnNext(states, k, call);
      } else {
        OnWaits(states, k, call);
      }
    case Locked(call) =>
      if s.filter.Locked? {
        var j, rs :| HeldSince(states, j, k, call, rs);
        HeldNext(states, steps, j, k, call, rs);
      } else {
        WasOnNext(states, k, call);
        HeldFirst(states, k + 1, call);
      }
    case Checking(call, _, _, _, _) =>
      var j, rs :| HeldSince(states, j, k, call, rs);
      HeldNext(states, steps, j, k, call, rs);
    case Checked(call, _) =>
      var j, rs :| HeldSince(states, j, k, call, rs);
      HeldNext(states, steps, j, k, call, rs);
    case Returned(call, verdict) =>
      if s.filter.Returned? {
        JustifiedNext(states, steps, k, call, verdict);
      } else if s.filter.Entered? {
        OffJustifies(states, k, call);
      } else {
        var j, rs :| HeldSince(states, j, k, call, rs);
        CheckJustifies(states, j, k, call, rs);
      }
    case _ =>
  }

  lemma {:induction false} StoryAt(states: seq<State>, steps: seq<Step>, k: nat)
    requires Run(states, steps) && k < |states|
    ensures Story(states, k)
    decreases k
  {
    if k > 0 {
      StoryAt(states, steps, k - 1);
      NoFault(states, steps, k - 1);
      NoFault(states, steps, k);
      StoryNext(states, steps, k - 1);
    }
  }

  /** In every interleaving, a verdict is either accept because filtering was read as off during
      the call, or, filtering having been read as on, the check result of one complete rule set
      that was current from the moment the call took the lock until its check was over. */
  lemma VerdictSound(states: seq<State>, steps: seq<Step>, k: nat)
    requires Run(states, steps) && k < |states| && states[k].filter.Returned?
    ensures Justified(states, k, states[k].filter.call, states[k].filter.verdict)
  {
    StoryAt(states, steps, k);
  }

  /** The call in progress is the one that was begun last. */
  ghost predicate Begun(states: seq<State>, steps: seq<Step>, b: nat, k: nat, call: Call)
    requires |states| == |steps| + 1 && k < |states|
  {
    b < k && steps[b] == Begin(call) && InCall(states, b + 1, k, call)
  }

  lemma {:induction false} BegunAt(states: seq<State>, steps: seq<Step>, k: nat) returns (b: nat)
    requires Run(states, steps) && k < |states| && !states[k].filter.Idle?
    ensures Begun(states, steps, b, k, states[k].filter.call)
    decreases k
  {
    hide Next;
    assert Next(states[k - 1], steps[k - 1]) == Some(states[k]);
    CallStep(states[k - 1], steps[k - 1], states[k]);
    if states[k - 1].filter.Idle? {
      b := k - 1;
    } else {
      b := BegunAt(states, steps, k - 1);
    }
  }

  /** A call changes only by beginning and ending. */
  lemma CallStep(s: State, step: Step, s': State)
    requires Next(s, step) == Some(s') && !s'.filter.Idle?
    ensures if s.filter.Idle? then step == Begin(s'.filter.call) else s'.filter.call == s.filter.call
  {
  }

  // ---------------------------------------------------------------- what reloads bring in

  /** The rules that a loading thread has parsed last. */
  function LastBuilt(steps: seq<Step>, id: nat): Option<seq<Rule>> {
    if steps == [] then None
    else
      match steps[|steps| - 1]
      case Build(i, _, parsed) => if i == id then Some(parsed) else LastBuilt(steps[..|steps| - 1], id)
      case _ => LastBuilt(steps[..|steps| - 1], id)
  }

  /** The rules that the last assignment brought in, or the first ones. */
  function Installed(first: seq<Rule>, steps: seq<Step>): seq<Rule> {
    if steps == [] then first
    else
      var before := steps[..|steps| - 1];
      match steps[|steps| - 1]
      case Assign(id) => if LastBuilt(before, id).Some? then LastBuilt(before, id).value else first
      case _ => Installed(first, before)
  }

  /** The value that the flag was last set to; init sets it. */
  function FlagOf(steps: seq<Step>): bool {
    if steps == [] then true
    else match steps[|steps| - 1] case SetEnabled(on) => on case _ => FlagOf(steps[..|steps| - 1])
  }

  ghost predicate BeingReplaced(s: State) { s.mutex.Loader? && s.Pc(s.mutex.id).Deleted? }

  /** What the steps so far say about a state: every built set holds what its thread parsed, the
      current set is the one that was brought in last, and the flag is as it was last set. */
  ghost predicate Accounted(s: State, first: seq<Rule>, steps: seq<Step>) {
    && (forall id: nat :: Owns(s.Pc(id)) && s.Pc(id).mine in s.heap ==> LastBuilt(steps, id) == Some(s.heap[s.Pc(id).mine]))
    && (!BeingReplaced(s) && s.rules in s.heap ==> s.heap[s.rules] == Installed(first, steps))
    && s.enabled == FlagOf(steps)
  }

  lemma AccountedFirst(s: State)
    requires Initial(s)
    ensures Accounted(s, s.heap[s.rules], [])
  {
  }

  lemma AccountedNext(s: State, step: Step, s': State, first: seq<Rule>, steps: seq<Step>)
    requires Inv(s) && Next(s, step) == Some(s') && Accounted(s, first, steps)
    ensures Accounted(s', first, steps + [step])
  {
    var all := steps + [step];
    assert all[..|all| - 1] == steps;
    if ByFilter(step) {
      assert forall id: nat :: s'.Pc(id) == s.Pc(id);
    } else {
      OtherAccounted(s, step, s', first, steps, all);
    }
  }

  lemma OtherAccounted(s: State, step: Step, s': State, first: seq<Rule>, steps: seq<Step>, all: seq<Step>)
    requires Inv(s) && !ByFilter(step) && OtherStep(s, step) == Some(s') && Accounted(s, first, steps)
    requires all == steps + [step] && all[..|all| - 1] == steps
    ensures Accounted(s', first, all)
  {
    hide Sound;
    if step.SetEnabled? {
      assert forall id: nat :: s'.Pc(id) == s.Pc(id);
    }
    forall id: nat | Owns(s'.Pc(id)) && s'.Pc(id).mine in s'.heap
      ensures LastBuilt(all, id) == Some(s'.heap[s'.Pc(id).mine])
    {
    }
  }

  lemma {:induction false} AccountedAt(states: seq<State>, steps: seq<Step>, k: nat)
    requires Run(states, steps) && k < |states|
    ensures Accounted(states[k], states[0].heap[states[0].rules], steps[..k])
    decreases k
  {
    hide Next, Inv, Accounted, FlagOf, LastBuilt, Installed;
    if k == 0 {
      AccountedFirst(states[0]);
    } else {
      NoFault(states, steps, k - 1);
      AccountedAt(states, steps, k - 1);
      AccountedNext(states[k - 1], steps[k - 1], states[k], states[0].heap[states[0].rules], steps[..k - 1]);
      assert steps[..k] == steps[..k - 1] + [steps[k - 1]];
    }
  }

  /** Every reload takes effect: once a thread has assigned, the current set is what that thread
      parsed last. */
  lemma ReloadTakesEffect(states: seq<State>, steps: seq<Step>, k: nat, l: nat, id: nat, where: Address, parsed: seq<Rule>)
    requires Run(states, steps) && k < l < |steps| && steps[k] == Build(id, where, parsed) && steps[l] == Assign(id)
    requires forall i :: k < i < l ==> !(steps[i].Build? && steps[i].id == id)
    ensures states[l + 1].rules in states[l + 1].heap && states[l + 1].heap[states[l + 1].rules] == parsed
  {
    hide Inv, Next, LastBuilt, Installed, BeingReplaced;
    var first := states[0].heap[states[0].rules];
    AccountedAt(states, steps, l + 1);
    NoFault(states, steps, l);
    BuiltStays(steps, k, l, id, where, parsed);
    assert steps[..l + 1] == steps[..l] + [steps[l]];
    InstalledBy(first, steps[..l], id, parsed);
    assert Next(states[l], steps[l]) == Some(states[l + 1]);
    AfterAssign(states[l], id, states[l + 1]);
  }

  lemma InstalledBy(first: seq<Rule>, steps: seq<Step>, id: nat, parsed: seq<Rule>)
    requires LastBuilt(steps, id) == Some(parsed)
    ensures Installed(first, steps + [Assign(id)]) == parsed
  {
    var all := steps + [Assign(id)];
    assert all[..|all| - 1] == steps;
  }

  lemma AfterAssign(s: State, id: nat, s': State)
    requires Inv(s) && Next(s, Assign(id)) == Some(s')
    ensures !BeingReplaced(s') && s'.rules in s'.heap
  {
    hide Sound;
    InvNext(s, Assign(id), s');
  }

  lemma {:induction false} BuiltStays(steps: seq<Step>, k: nat, l: nat, id: nat, where: Address, parsed: seq<Rule>)
    requires k < l <= |steps| && steps[k] == Build(id, where, parsed)
    requires forall i :: k < i < l ==> !(steps[i].Build? && steps[i].id == id)
    ensures LastBuilt(steps[..l], id) == Some(parsed)
    decreases l
  {
    assert steps[..l][..l - 1] == steps[..l - 1] && steps[..l][l - 1] == steps[l - 1];
    if k < l - 1 {
      BuiltStays(steps, k, l - 1, id, where, parsed);
    }
  }

  /** What was brought in stays current and unchanged until some thread deletes. */
  lemma {:induction false} StaysUntilDelete(states: seq<State>, steps: seq<Step>, l: nat, m: nat)
    requires Run(states, steps) && l < m < |states| && steps[l].Assign?
    requires forall i :: l < i < m ==> !steps[i].Delete?
    ensures states[l + 1].rules in states[l + 1].heap
    ensures Current(states, l + 1, m, states[l + 1].heap[states[l + 1].rules]) && !BeingReplaced(states[m])
    decreases m
  {
    hide Inv, Next, BeingReplaced;
    NoFault(states, steps, l);
    assert Next(states[l], steps[l]) == Some(states[l + 1]);
    AfterAssign(states[l], steps[l].id, states[l + 1]);
    if m > l + 1 {
      StaysUntilDelete(states, steps, l, m - 1);
      NoFault(states, steps, m - 1);
      assert Next(states[m - 1], steps[m - 1]) == Some(states[m]);
      QuietStep(states[m - 1], steps[m - 1], states[m]);
    }
  }

  lemma QuietStep(s: State, step: Step, s': State)
    requires Inv(s) && Next(s, step) == Some(s') && !step.Delete? && !BeingReplaced(s)
    ensures s'.rules == s.rules && s.rules in s.heap && s.rules in s'.heap && s'.heap[s.rules] == s.heap[s.rules]
    ensures !BeingReplaced(s')
  {
    hide Sound;
    if !ByFilter(step) && !step.SetEnabled? {
      assert InLock(s.Pc(step.id)) <==> s.mutex == Loader(step.id);
    }
  }

  /** The verdict of a call that was begun with a packet, in terms of the steps of the run alone:
      either the flag had last been set to off when it was read, and the verdict is accept, or it
      had last been set to on, and the verdict is the check result of the rules that the last
      assignment before the lock had brought in. */
  lemma VerdictOfRun(states: seq<State>, steps: seq<Step>, k: nat)
    requires Run(states, steps) && k < |states| && states[k].filter.Returned?
    ensures var call, verdict, first := states[k].filter.call, states[k].filter.verdict, states[0].heap[states[0].rules];
            && (exists b :: Begun(states, steps, b, k, call))
            && ((verdict && exists j: nat :: OffAt(states, steps, j, k, call))
                || exists j: nat, e: nat :: CheckedAt(states, steps, j, e, k, call, first, verdict))
  {
    hide Accepts, Installed, Inv, SawOff, CheckedDuring, FlagOf, Begun;
    var call, verdict, first := states[k].filter.call, states[k].filter.verdict, states[0].heap[states[0].rules];
    var b := BegunAt(states, steps, k);
    VerdictSound(states, steps, k);
    if verdict && exists j :: SawOff(states, j, k, call) {
      var j: nat :| SawOff(states, j, k, call);
      OffFlag(states, steps, j, k, call);
    } else {
      var j: nat, e: nat, rs :| CheckedDuring(states, j, e, k, call, rs) && (verdict <==> Accepts(rs, call.packet, call.now));
      CheckedInstalled(states, steps, j, e, k, call, rs);
      assert CheckedAt(states, steps, j, e, k, call, first, verdict);
    }
  }

  ghost predicate OffAt(states: seq<State>, steps: seq<Step>, j: nat, k: nat, call: Call)
    requires k < |states|
  {
    j <= |steps| && SawOff(states, j, k, call) && !FlagOf(steps[..j])
  }

  ghost predicate CheckedAt(states: seq<State>, steps: seq<Step>, j: nat, e: nat, k: nat, call: Call, first: seq<Rule>, verdict: bool)
    requires k < |states|
  {
    && j <= |steps| && CheckedDuring(states, j, e, k, call, Installed(first, steps[..j]))
    && (verdict <==> Accepts(Installed(first, steps[..j]), call.packet, call.now))
  }

  lemma OffFlag(states: seq<State>, steps: seq<Step>, j: nat, k: nat, call: Call)
    requires Run(states, steps) && k < |states| && SawOff(states, j, k, call)
    ensures OffAt(states, steps, j, k, call)
  {
    AccountedAt(states, steps, j);
  }

  lemma CheckedInstalled(states: seq<State>, steps: seq<Step>, j: nat, e: nat, k: nat, call: Call, rs: seq<Rule>)
    requires Run(states, steps) && k < |states| && CheckedDuring(states, j, e, k, call, rs)
    ensures j <= |steps| && rs == Installed(states[0].heap[states[0].rules], steps[..j])
  {
    AccountedAt(states, steps, j);
    NoFault(states, steps, j);
    LockedIsNotReplaced(states[j]);
  }

  lemma LockedIsNotReplaced(s: State)
    requires Inv(s) && s.filter.Locked?
    ensures !BeingReplaced(s) && s.rules in s.heap
  {
  }

  /** Filtering that is on throughout a call means that its verdict is a check result; off
      throughout means accept. */
  lemma SteadyFlag(states: seq<State>, steps: seq<Step>, b: nat, k: nat)
    requires Run(states, steps) && k < |states| && states[k].filter.Returned? && Begun(states, steps, b, k, states[k].filter.call)
    ensures (forall i :: b < i <= k ==> !states[i].enabled) ==> states[k].filter.verdict
    ensures (forall i :: b < i <= k ==> states[i].enabled) ==>
              exists j, e, rs :: CheckedDuring(states, j, e, k, states[k].filter.call, rs)
                && (states[k].filter.verdict <==> Accepts(rs, states[k].filter.call.packet, states[k].filter.call.now))
  {
    hide Accepts, Current;
    var call := states[k].filter.call;
    VerdictSound(states, steps, k);
    forall j | SawOff(states, j, k, call) || SawOn(states, j, k, call)
      ensures b < j
    {
      SameCall(states, steps, b, j, k, call);
    }
    if exists j, e, rs :: CheckedDuring(states, j, e, k, call, rs) {
      var j, e, rs :| CheckedDuring(states, j, e, k, call, rs);
      var i :| SawOn(states, i, j, call);
      assert SawOn(states, i, k, call);
    }
  }

  /** A call does not reach back behind its beginning. */
  lemma SameCall(states: seq<State>, steps: seq<Step>, b: nat, j: nat, k: nat, call: Call)
    requires Run(states, steps) && j <= k < |states| && Begun(states, steps, b, k, call) && InCall(states, j, k, call)
    ensures b < j
  {
    assert Next(states[b], steps[b]) == Some(states[b + 1]);
    assert states[b].filter.Idle?;
  }

  // ---------------------------------------------------------------- steps that can be taken

  function NextAll(s: State, steps: seq<Step>): Option<State>
    decreases |steps|
  {
    if steps == [] then Some(s)
    else match Next(s, steps[0]) case None => None case Some(s') => NextAll(s', steps[1..])
  }

  lemma {:induction false} NextConcat(s: State, a: seq<Step>, b: seq<Step>)
    ensures NextAll(s, a + b) == match NextAll(s, a) case None => None case Some(s') => NextAll(s', b)
    decreases |a|
  {
    if a == [] {
      assert a + b == b;
    } else {
      assert (a + b)[0] == a[0] && (a + b)[1..] == a[1..] + b;
      if Next(s, a[0]).Some? {
        NextConcat(Next(s, a[0]).value, a[1..], b);
      }
    }
  }

  /** While the mutex is free, a thread that is away can load: nothing stands in its way, and what
      it parsed is current afterwards. */
  lemma LoadRuns(s: State, id: nat, where: Address, parsed: seq<Rule>)
    requires Inv(s) && s.mutex.Nobody? && s.Pc(id).Away? && where !in s.heap
    ensures var r := NextAll(s, [Build(id, where, parsed), LoaderLock(id), Delete(id), Assign(id), LoaderUnlock(id)]);
            && r.Some? && r.value.mutex.Nobody? && r.value.Pc(id).Away?
            && r.value.rules in r.value.heap && r.value.heap[r.value.rules] == parsed
  {
    FreeIsLive(s);
    hide Next, Inv;
    var s1 := BuildGoes(s, id, where, parsed);
    var s2 := LockGoes(s1, id);
    var s3 := DeleteGoes(s2, id);
    var s4 := AssignGoes(s3, id);
    var s5 := UnlockGoes(s4, id);
    FiveSteps(s, Build(id, where, parsed), s1, LoaderLock(id), s2, Delete(id), s3, Assign(id), s4, LoaderUnlock(id), s5);
  }

  lemma FreeIsLive(s: State)
    requires Inv(s) && s.mutex.Nobody?
    ensures s.rules in s.heap
  {
  }

  lemma BuildGoes(s: State, id: nat, where: Address, parsed: seq<Rule>) returns (s': State)
    requires s.Pc(id).Away? && where !in s.heap
    ensures Next(s, Build(id, where, parsed)) == Some(s')
    ensures s'.Pc(id) == Built(where) && s'.heap == s.heap[where := parsed] && s'.rules == s.rules && s'.mutex == s.mutex
  {
    s' := Next(s, Build(id, where, parsed)).value;
  }

  lemma LockGoes(s: State, id: nat) returns (s': State)
    requires s.Pc(id).Built? && s.mutex.Nobody?
    ensures Next(s, LoaderLock(id)) == Some(s')
    ensures s'.Pc(id) == Holding(s.Pc(id).mine) && s'.heap == s.heap && s'.rules == s.rules && s'.mutex == Loader(id)
  {
    s' := Next(s, LoaderLock(id)).value;
  }

  lemma DeleteGoes(s: State, id: nat) returns (s': State)
    requires s.Pc(id).Holding? && s.rules in s.heap
    ensures Next(s, Delete(id)) == Some(s')
    ensures s'.Pc(id) == Deleted(s.Pc(id).mine) && s'.heap == s.heap - {s.rules} && s'.mutex == s.mutex
  {
    s' := Next(s, Delete(id)).value;
  }

  lemma AssignGoes(s: State, id: nat) returns (s': State)
    requires s.Pc(id).Deleted?
    ensures Next(s, Assign(id)) == Some(s')
    ensures s'.Pc(id) == Swapped && s'.heap == s.heap && s'.rules == s.Pc(id).mine && s'.mutex == s.mutex
  {
    s' := Next(s, Assign(id)).value;
  }

  lemma UnlockGoes(s: State, id: nat) returns (s': State)
    requires s.Pc(id).Swapped?
    ensures Next(s, LoaderUnlock(id)) == Some(s')
    ensures s'.Pc(id) == Away && s'.heap == s.heap && s'.rules == s.rules && s'.mutex == Nobody
  {
    s' := Next(s, LoaderUnlock(id)).value;
  }

  lemma FiveSteps(s: State, a: Step, s1: State, b: Step, s2: State, c: Step, s3: State, d: Step, s4: State, e: Step, s5: State)
    requires Next(s, a) == Some(s1) && Next(s1, b) == Some(s2) && Next(s2, c) == Some(s3) && Next(s3, d) == Some(s4) && Next(s4, e) == Some(s5)
    ensures NextAll(s, [a, b, c, d, e]) == Some(s5)
  {
    hide Next;
    assert [a, b, c, d, e][1..] == [b, c, d, e] && [b, c, d, e][1..] == [c, d, e] && [c, d, e][1..] == [d, e];
    assert [d, e][1..] == [e] && [e][1..] == [];
    assert NextAll(s4, [e]) == Some(s5);
    assert NextAll(s3, [d, e]) == Some(s5);
    assert NextAll(s2, [c, d, e]) == Some(s5);
    assert NextAll(s1, [b, c, d, e]) == Some(s5);
  }

  /** While the mutex is free, a packet can be judged: the call runs to its end and answers the
      check of the current rules, or accept when filtering is off. */
  lemma JudgeRuns(s: State, call: Call) returns (steps: seq<Step>)
    requires Inv(s) && s.mutex.Nobody? && s.filter.Idle?
    ensures s.rules in s.heap
    ensures NextAll(s, steps) ==
            Some(s.(filter := Returned(call, !s.enabled || Accepts(s.heap[s.rules], call.packet, call.now))))
  {
    var first := [Begin(call), ReadFlag];
    assert first[1..] == [ReadFlag] && [ReadFlag][1..] == [];
    var entered := Next(s, Begin(call)).value;
    var s1 := Next(entered, ReadFlag).value;
    assert NextAll(entered, [ReadFlag]) == Some(s1);
    if !s.enabled {
      steps := first;
    } else {
      var rest := [FilterLock, ReadPointer];
      assert rest[1..] == [ReadPointer] && [ReadPointer][1..] == [];
      var locked := Next(s1, FilterLock).value;
      var s2 := Next(locked, ReadPointer).value;
      assert NextAll(locked, [ReadPointer]) == Some(s2);
      InvNext(s, Begin(call), entered);
      InvNext(entered, ReadFlag, s1);
      InvNext(s1, FilterLock, locked);
      InvNext(locked, ReadPointer, s2);
      var checks := CheckRuns(s2);
      NextConcat(s, first, rest);
      NextConcat(s, first + rest, checks);
      steps := first + rest + checks;
    }
  }

  lemma {:induction false} CheckRuns(s: State) returns (steps: seq<Step>)
    requires Inv(s) && s.filter.Checking?
    ensures s.rules in s.heap
    ensures NextAll(s, steps) ==
            Some(s.(mutex := Nobody, filter := Returned(s.filter.call, Accepts(s.heap[s.rules], s.filter.call.packet, s.filter.call.now))))
    decreases |s.heap[s.filter.at]| - s.filter.i
  {
    var step := if s.filter.i < |s.heap[s.rules]| then CheckRule else FinishCheck;
    var s' := Next(s, step).value;
    InvNext(s, step, s');
    if step.CheckRule? {
      var rest := CheckRuns(s');
      steps := [step] + rest;
      assert steps[1..] == rest;
    } else {
      steps := [step, FilterUnlock];
      assert steps[1..] == [FilterUnlock] && [FilterUnlock][1..] == [];
      assert NextAll(s', [FilterUnlock]) == Next(s', FilterUnlock);
    }
  }

  /** Whoever holds the mutex can always take a step, so nobody waits for ever on a stuck
      holder. */
  lemma HolderMoves(s: State) returns (step: Step)
    requires Inv(s) && !s.mutex.Nobody?
    ensures Next(s, step).Some?
    ensures if s.mutex.Filter? then ByFilter(step)
            else step in [Delete(s.mutex.id), Assign(s.mutex.id), LoaderUnlock(s.mutex.id)]
  {
    if s.mutex.Loader? {
      var id := s.mutex.id;
      assert InLock(s.Pc(id));
      step := match s.Pc(id) case Holding(_) => Delete(id) case Deleted(_) => Assign(id) case _ => LoaderUnlock(id);
    } else {
      step := match s.filter
        case Locked(_) => ReadPointer
        case Checking(_, at, i, _, _) => if i < |s.heap[s.rules]| then CheckRule else FinishCheck
        case _ => FilterUnlock;
    }
  }
}
