/** The one slot for an owned model process: calls, shutdowns and process deaths as interleaved steps. */
module ModelSlot {
  import opened Wrappers

  /** A managed provider: its identity, and the key of the server it needs. */
  datatype Provider = Provider(id: nat, key: string)

  /** The one exit value of a process: not delivered yet, in its channel, or received. */
  datatype Token = Due | Delivered | Taken

  /** A started process; ready records that a health probe of its startup succeeded. */
  datatype Proc = Proc(owner: Provider, alive: bool, token: Token, ready: bool)

  /** What a stop of the process is for. */
  datatype Purpose = ToStart | ToGiveUp | ToClose

  /** Where a call stands in acquire, prepare, stop, Chat and Close. */
  datatype Pc =
    | Idle
    | Acquiring(p: Provider, closing: bool)
    | Checking(p: Provider)
    | Closing(p: Provider)
    | Stopping(p: Provider, purpose: Purpose)
    | Terminating(p: Provider, purpose: Purpose)
    | Killing(p: Provider, purpose: Purpose)
    | Starting(p: Provider)
    | Awaiting(p: Provider, pid: nat)
    | Forwarding(p: Provider)
    | Releasing

  predicate Inside(pc: Pc) { !pc.Idle? && !pc.Acquiring? }

  /** The slot's fields, every process it ever started, and where each call stands. The gate records who filled it. */
  datatype State = State(gate: Option<nat>, owner: Option<Provider>, cmd: Option<nat>, done: Option<nat>,
                         procs: seq<Proc>, pcs: map<nat, Pc>)
  {
    function At(t: nat): Pc { if t in pcs then pcs[t] else Idle }
    function Go(t: nat, pc: Pc): State { this.(pcs := pcs[t := pc]) }

    /** Whether a receive from this channel succeeds now. */
    predicate CanReceive(channel: Option<nat>) {
      channel.Some? && channel.value < |procs| && procs[channel.value].token == Delivered
    }

    function Receive(channel: Option<nat>): State
      requires CanReceive(channel)
    {
      this.(procs := procs[channel.value := procs[channel.value].(token := Taken)])
    }
  }

  const INITIAL := State(None, None, None, None, [], map[])

  /** One step of a call t, or of a process. The choices of each select, and every failure, are separate steps. */
  datatype Action =
    | Call(t: nat, p: Provider, closing: bool)
    | Cancel(t: nat)
    | Enter(t: nat)
    | Check(t: nat)
    | BeginClose(t: nat)
    | BeginStop(t: nat)
    | ReceiveExit(t: nat)
    | TermTimesOut(t: nat, killFails: bool)
    | KillTimesOut(t: nat)
    | Refuse(t: nat)
    | Launch(t: nat)
    | ExitsInStartup(t: nat)
    | StartupTimesOut(t: nat)
    | Healthy(t: nat)
    | Return(t: nat)
    | Release(t: nat)
    | Dies(pid: nat)
    | Reaped(pid: nat)

  /** Where a call goes once the slot is empty. */
  function Emptied(p: Provider, purpose: Purpose): Pc { if purpose.ToStart? then Starting(p) else Releasing }

  function Step(s: State, a: Action): State {
    match a
    case Call(t, p, closing) => if s.At(t).Idle? then s.Go(t, Acquiring(p, closing)) else s
    case Cancel(t) => if s.At(t).Acquiring? then s.Go(t, Idle) else s
    case Enter(t) =>
      if !s.At(t).Acquiring? || s.gate.Some? then s
      else s.(gate := Some(t)).Go(t, if s.At(t).closing then Closing(s.At(t).p) else Checking(s.At(t).p))
    case Check(t) =>
      if !s.At(t).Checking? then s
      else
        var p := s.At(t).p;
        if s.owner.Some? && s.owner.value.key == p.key then
          if s.CanReceive(s.done)
          then s.Receive(s.done).(cmd := None, owner := None).Go(t, Stopping(p, ToStart))
          else s.Go(t, Forwarding(p))
        else s.Go(t, Stopping(p, ToStart))
    case BeginClose(t) =>
      if !s.At(t).Closing? then s
      else if s.owner == Some(s.At(t).p) then s.Go(t, Stopping(s.At(t).p, ToClose))
      else s.Go(t, Releasing)
    case BeginStop(t) =>
      if !s.At(t).Stopping? then s
      else if s.cmd.None? then s.Go(t, Emptied(s.At(t).p, s.At(t).purpose))
      else s.Go(t, Terminating(s.At(t).p, s.At(t).purpose))
    case ReceiveExit(t) =>
      if !(s.At(t).Terminating? || s.At(t).Killing?) || !s.CanReceive(s.done) then s
      else s.Receive(s.done).(cmd := None, owner := None, done := None).Go(t, Emptied(s.At(t).p, s.At(t).purpose))
    case TermTimesOut(t, killFails) =>
      if !s.At(t).Terminating? then s
      else s.Go(t, if killFails then Releasing else Killing(s.At(t).p, s.At(t).purpose))
    case KillTimesOut(t) => if s.At(t).Killing? then s.Go(t, Releasing) else s
    case Refuse(t) => if s.At(t).Starting? then s.Go(t, Releasing) else s
    case Launch(t) =>
      if !s.At(t).Starting? then s
      else
        var p, pid := s.At(t).p, |s.procs|;
        s.(procs := s.procs + [Proc(p, true, Due, false)], cmd := Some(pid), owner := Some(p), done := Some(pid))
         .Go(t, Awaiting(p, pid))
    case ExitsInStartup(t) =>
      if !s.At(t).Awaiting? || !s.CanReceive(Some(s.At(t).pid)) then s
      else s.Receive(Some(s.At(t).pid)).(cmd := None, owner := None).Go(t, Releasing)
    case StartupTimesOut(t) => if s.At(t).Awaiting? then s.Go(t, Stopping(s.At(t).p, ToGiveUp)) else s
    case Healthy(t) =>
      if !s.At(t).Awaiting? || s.At(t).pid >= |s.procs| then s
      else
        var pid := s.At(t).pid;
        s.(procs := s.procs[pid := s.procs[pid].(ready := true)]).Go(t, Forwarding(s.At(t).p))
    case Return(t) => if s.At(t).Forwarding? then s.Go(t, Releasing) else s
    case Release(t) => if s.At(t).Releasing? then s.(gate := None).Go(t, Idle) else s
    case Dies(pid) =>
      if pid < |s.procs| then s.(procs := s.procs[pid := s.procs[pid].(alive := false)]) else s
    case Reaped(pid) =>
      if pid < |s.procs| && !s.procs[pid].alive && s.procs[pid].token == Due
      then s.(procs := s.procs[pid := s.procs[pid].(token := Delivered)])
      else s
  }

  function Run(actions: seq<Action>): State {
    if actions == [] then INITIAL else Step(Run(actions[..|actions| - 1]), actions[|actions| - 1])
  }

  // What every step keeps.

  /** Exactly the call that filled the gate is inside. */
  ghost predicate GateGuards(s: State) {
    && (forall t: nat :: Inside(s.At(t)) ==> s.gate == Some(t))
    && (s.gate.Some? ==> Inside(s.At(s.gate.value)))
  }

  /** The slot names a process exactly when it names its owner, and its channel still owes or holds the exit. */
  ghost predicate SlotAgrees(s: State) {
    && (s.owner.Some? <==> s.cmd.Some?)
    && (s.cmd.Some? ==>
          && s.cmd.value < |s.procs| && s.done == s.cmd
          && s.procs[s.cmd.value].owner == s.owner.value && s.procs[s.cmd.value].token != Taken)
  }

  /** A process whose exit was not received is the one in the slot; a live one has not delivered it. */
  ghost predicate ProcsOwned(s: State) {
    forall pid: nat | pid < |s.procs| ::
      (s.procs[pid].token != Taken ==> s.cmd == Some(pid)) && (s.procs[pid].alive ==> s.procs[pid].token == Due)
  }

  /** What the call inside knows where it stands. */
  ghost predicate PcFits(s: State, pc: Pc) {
    match pc
    case Starting(_) => s.cmd.None?
    case Awaiting(p, pid) => s.cmd == Some(pid) && s.owner == Some(p)
    case Stopping(p, purpose) => !purpose.ToStart? ==> s.cmd.Some? && s.owner == Some(p)
    case Terminating(p, purpose) => s.cmd.Some? && (!purpose.ToStart? ==> s.owner == Some(p))
    case Killing(p, purpose) => s.cmd.Some? && (!purpose.ToStart? ==> s.owner == Some(p))
    case Forwarding(p) => s.owner.Some? && s.owner.value.key == p.key
    case _ => true
  }

  ghost predicate Safe(s: State) {
    GateGuards(s) && SlotAgrees(s) && ProcsOwned(s) && (s.gate.Some? ==> PcFits(s, s.At(s.gate.value)))
  }

  lemma StepGuards(s: State, a: Action)
    requires GateGuards(s)
    ensures GateGuards(Step(s, a))
  {
    var s' := Step(s, a);
    forall t: nat ensures Inside(s'.At(t)) ==> s'.gate == Some(t) {
      assert Inside(s.At(t)) ==> s.gate == Some(t);
    }
  }

  /** Steps of processes change neither the slot nor where calls stand. */
  lemma ProcessSteps(s: State, a: Action)
    requires Safe(s) && (a.Dies? || a.Reaped?)
    ensures Safe(Step(s, a))
  {
    StepGuards(s, a);
  }

  /** Outside the gate a step changes only where its own call stands. */
  lemma OuterSteps(s: State, a: Action)
    requires Safe(s) && (a.Call? || a.Cancel? || a.Enter?)
    ensures Safe(Step(s, a))
  {
    StepGuards(s, a);
  }

  predicate OfStop(a: Action) { a.BeginStop? || a.ReceiveExit? || a.TermTimesOut? || a.KillTimesOut? }

  /** The steps of a stop, by the call inside. */
  lemma StopSteps(s: State, a: Action)
    requires Safe(s) && OfStop(a)
    ensures Safe(Step(s, a))
  {
    StepGuards(s, a);
    if Step(s, a) != s {
      assert Inside(s.At(a.t)) && s.gate == Some(a.t);
    }
  }

  /** The other steps of the call inside meet and keep what it knows. */
  lemma InnerSteps(s: State, a: Action)
    requires Safe(s) && !OfStop(a) && !a.Dies? && !a.Reaped? && !a.Call? && !a.Cancel? && !a.Enter?
    ensures Safe(Step(s, a))
  {
    StepGuards(s, a);
    if Step(s, a) != s {
      assert Inside(s.At(a.t)) && s.gate == Some(a.t);
    }
  }

  lemma StepSafe(s: State, a: Action)
    requires Safe(s)
    ensures Safe(Step(s, a))
  {
    if a.Dies? || a.Reaped? {
      ProcessSteps(s, a);
    } else if a.Call? || a.Cancel? || a.Enter? {
      OuterSteps(s, a);
    } else if OfStop(a) {
      StopSteps(s, a);
    } else {
      InnerSteps(s, a);
    }
  }

  lemma {:induction false} RunSafe(actions: seq<Action>)
    ensures Safe(Run(actions))
  {
    if actions != [] {
      RunSafe(actions[..|actions| - 1]);
      StepSafe(Run(actions[..|actions| - 1]), actions[|actions| - 1]);
    }
  }

  // Main results, over every interleaving.

  /** At most one owned process is alive, and it is the one in the slot. */
  lemma AtMostOneAlive(actions: seq<Action>, i: nat, j: nat)
    requires i < |Run(actions).procs| && j < |Run(actions).procs|
    requires Run(actions).procs[i].alive && Run(actions).procs[j].alive
    ensures i == j && Run(actions).cmd == Some(i)
  {
    RunSafe(actions);
  }

  /** A process is started only when every earlier one has exited and its exit has been received. */
  lemma StartsIntoAnEmptySlot(actions: seq<Action>, t: nat, pid: nat)
    requires Run(actions).At(t).Starting? && pid < |Run(actions).procs|
    ensures !Run(actions).procs[pid].alive && Run(actions).procs[pid].token == Taken
  {
    RunSafe(actions);
  }

  /** Whether the action receives the exit of this process. */
  ghost predicate Receives(s: State, a: Action, pid: nat) {
    pid < |s.procs| && s.procs[pid].token != Taken && Step(s, a).procs[pid].token == Taken
  }

  /** The channel a call would receive from where it stands. */
  function WaitsOn(s: State, t: nat): Option<nat> {
    match s.At(t)
    case Checking(p) => if s.owner.Some? && s.owner.value.key == p.key then s.done else None
    case Awaiting(_, pid) => Some(pid)
    case Terminating(_, _) => s.done
    case Killing(_, _) => s.done
    case _ => None
  }

  /** No call ever stands at a receive from a channel whose one exit was received before: it would hang on it. */
  lemma NeverWaitsForASpentExit(actions: seq<Action>, t: nat)
    requires WaitsOn(Run(actions), t).Some?
    ensures var s, pid := Run(actions), WaitsOn(Run(actions), t).value;
            pid < |s.procs| && s.procs[pid].token != Taken && s.cmd == Some(pid)
  {
    RunSafe(actions);
    assert Inside(Run(actions).At(t));
  }

  lemma TakenStays(s: State, a: Action, pid: nat)
    requires pid < |s.procs| && s.procs[pid].token == Taken
    ensures pid < |Step(s, a).procs| && Step(s, a).procs[pid].token == Taken
  {
  }

  lemma {:induction false} TakenForGood(actions: seq<Action>, k: nat, pid: nat)
    requires k <= |actions| && pid < |Run(actions[..k]).procs| && Run(actions[..k]).procs[pid].token == Taken
    ensures pid < |Run(actions).procs| && Run(actions).procs[pid].token == Taken
    decreases |actions|
  {
    if k == |actions| {
      assert actions[..k] == actions;
    } else {
      var front := actions[..|actions| - 1];
      assert front[..k] == actions[..k];
      TakenForGood(front, k, pid);
      TakenStays(Run(front), actions[|actions| - 1], pid);
    }
  }

  /** The exit of a process is received at most once in a run. */
  lemma ReceivedOnce(actions: seq<Action>, i: nat, j: nat, pid: nat)
    requires i < |actions| && j < |actions|
    ensures Receives(Run(actions[..i]), actions[i], pid) && Receives(Run(actions[..j]), actions[j], pid) ==> i == j
  {
    if Receives(Run(actions[..i]), actions[i], pid) && i < j {
      NotReceivedAgain(actions, i, j, pid);
    } else if Receives(Run(actions[..j]), actions[j], pid) && j < i {
      NotReceivedAgain(actions, j, i, pid);
    }
  }

  lemma NotReceivedAgain(actions: seq<Action>, i: nat, j: nat, pid: nat)
    requires i < j < |actions| && Receives(Run(actions[..i]), actions[i], pid)
    ensures !Receives(Run(actions[..j]), actions[j], pid)
  {
    var upto := actions[..j];
    assert upto[..i + 1] == actions[..i + 1];
    assert actions[..i + 1][..i] == actions[..i];
    assert Run(actions[..i + 1]) == Step(Run(actions[..i]), actions[i]);
    TakenStaysLength(Run(actions[..i]), actions[i]);
    TakenForGood(upto, i + 1, pid);
  }

  lemma TakenStaysLength(s: State, a: Action)
    ensures |s.procs| <= |Step(s, a).procs|
  {
  }

  /** A request is forwarded only while its call fills the gate and the process in the slot serves its key. */
  lemma ForwardsToItsOwnModel(actions: seq<Action>, t: nat)
    requires Run(actions).At(t).Forwarding?
    ensures var s := Run(actions);
            s.gate == Some(t) && s.cmd.Some? && s.cmd.value < |s.procs|
            && s.owner == Some(s.procs[s.cmd.value].owner) && s.owner.value.key == s.At(t).p.key
  {
    RunSafe(actions);
    assert Inside(Run(actions).At(t));
  }

  /** A stop for closing, or for giving up a startup, is only ever of the process of the very provider that asks. */
  lemma StopsOnlyItsOwn(actions: seq<Action>, t: nat)
    requires Run(actions).At(t).Terminating? || Run(actions).At(t).Killing?
    ensures var s := Run(actions);
            s.gate == Some(t) && s.cmd.Some? && (!s.At(t).purpose.ToStart? ==> s.owner == Some(s.At(t).p))
  {
    RunSafe(actions);
    assert Inside(Run(actions).At(t));
  }

  /** In every run, a provider that closes goes on to stop the process exactly when it owns it, and lets the gate go
      at once exactly when it does not. */
  lemma ClosesExactly(actions: seq<Action>, t: nat)
    requires Run(actions).At(t).Closing?
    ensures var s, p := Run(actions), Run(actions).At(t).p;
            && (Run(actions + [BeginClose(t)]).At(t) == Stopping(p, ToClose) <==> s.owner == Some(p))
            && (Run(actions + [BeginClose(t)]).At(t).Releasing? <==> s.owner != Some(p))
  {
    RunSnoc(actions, BeginClose(t));
  }

  /** Two requests are never forwarded at once. */
  lemma OneRequestAtATime(actions: seq<Action>, t: nat, u: nat)
    requires Inside(Run(actions).At(t)) && Inside(Run(actions).At(u))
    ensures t == u
  {
    RunSafe(actions);
  }

  // The gate is always given back.

  /** A bound on the steps the call inside still takes. */
  function Rank(pc: Pc): nat {
    match pc
    case Idle => 0
    case Acquiring(_, _) => 0
    case Checking(_) => 10
    case Closing(_) => 10
    case Stopping(_, purpose) => if purpose.ToStart? then 9 else 4
    case Terminating(_, purpose) => if purpose.ToStart? then 8 else 3
    case Killing(_, purpose) => if purpose.ToStart? then 7 else 2
    case Starting(_) => 6
    case Awaiting(_, _) => 5
    case Forwarding(_) => 2
    case Releasing => 1
  }

  predicate OfProcess(a: Action) { a.Dies? || a.Reaped? }

  /** Every step of the call inside brings it nearer to giving the gate back, and no other step moves it. */
  lemma InsideOnlyMovesOn(s: State, a: Action, t: nat)
    requires Safe(s) && Inside(s.At(t))
    ensures Step(s, a).At(t) == s.At(t) || Rank(Step(s, a).At(t)) < Rank(s.At(t))
    ensures OfProcess(a) || a.t != t ==> Step(s, a).At(t) == s.At(t)
  {
  }

  /** The step a call can take by itself: a timer of its own, never the exit of a process. */
  function OwnStep(s: State, t: nat): Action {
    match s.At(t)
    case Checking(_) => Check(t)
    case Closing(_) => BeginClose(t)
    case Stopping(_, _) => BeginStop(t)
    case Terminating(_, _) => TermTimesOut(t, false)
    case Killing(_, _) => KillTimesOut(t)
    case Starting(_) => Refuse(t)
    case Awaiting(_, _) => StartupTimesOut(t)
    case Forwarding(_) => Return(t)
    case _ => Release(t)
  }

  /** Whoever holds the gate can always give it back within ten steps of its own, whether or not any process exits. */
  lemma {:induction false} GateComesBack(actions: seq<Action>) returns (rest: seq<Action>)
    ensures Run(actions + rest).gate.None?
    ensures var s := Run(actions); |rest| <= if s.gate.Some? then Rank(s.At(s.gate.value)) else 0
    ensures forall k | 0 <= k < |rest| :: !OfProcess(rest[k]) && Some(rest[k].t) == Run(actions).gate
    decreases if Run(actions).gate.Some? then Rank(Run(actions).At(Run(actions).gate.value)) else 0
  {
    var s := Run(actions);
    RunSafe(actions);
    if s.gate.None? {
      rest := [];
      assert actions + rest == actions;
    } else {
      var t := s.gate.value;
      var a := OwnStep(s, t);
      RunSnoc(actions, a);
      OwnStepMoves(s, t);
      rest := GateComesBack(actions + [a]);
      assert actions + [a] + rest == actions + ([a] + rest);
      rest := [a] + rest;
    }
  }

  lemma OwnStepMoves(s: State, t: nat)
    requires Safe(s) && s.gate == Some(t)
    ensures var s' := Step(s, OwnStep(s, t)); s'.gate.None? || (s'.gate == s.gate && Rank(s'.At(t)) < Rank(s.At(t)))
    ensures !OfProcess(OwnStep(s, t)) && OwnStep(s, t).t == t
    ensures Rank(s.At(t)) >= 1
  {
  }

  lemma RunSnoc(actions: seq<Action>, a: Action)
    ensures Run(actions + [a]) == Step(Run(actions), a)
  {
    assert (actions + [a])[..|actions|] == actions;
  }

  // What calls come to when nothing fails.

  function Entered(s: State, t: nat, p: Provider, closing: bool): State { Step(Step(s, Call(t, p, closing)), Enter(t)) }

  /** A stop whose process exits on the signal. */
  function Exited(s: State, t: nat, pid: nat): State {
    Step(Step(Step(Step(s, BeginStop(t)), Dies(pid)), Reaped(pid)), ReceiveExit(t))
  }

  /** A start whose server answers. */
  function Served(s: State, t: nat): State { Step(Step(s, Launch(t)), Healthy(t)) }

  /** The gate is free, and the slot names a live process of this provider. */
  ghost predicate Holds(s: State, p: Provider, pid: nat) {
    && s.gate.None? && s.owner == Some(p) && s.cmd == s.done == Some(pid)
    && pid < |s.procs| && s.procs[pid] == Proc(p, true, Due, true)
  }

  lemma EnteredIs(s: State, t: nat, p: Provider, closing: bool)
    requires s.gate.None? && s.At(t).Idle?
    ensures Entered(s, t, p, closing) == s.(gate := Some(t)).Go(t, if closing then Closing(p) else Checking(p))
  {
    var pc := if closing then Closing(p) else Checking(p);
    assert s.pcs[t := Acquiring(p, closing)][t := pc] == s.pcs[t := pc];
  }

  lemma ExitedIs(s: State, t: nat, p: Provider, purpose: Purpose, pid: nat)
    requires s.At(t) == Stopping(p, purpose) && s.cmd == s.done == Some(pid)
    requires pid < |s.procs| && s.procs[pid].alive && s.procs[pid].token == Due
    ensures var down := Exited(s, t, pid);
            && down.At(t) == Emptied(p, purpose) && down.gate == s.gate
            && down.owner.None? && down.cmd.None? && down.done.None?
            && down.procs == s.procs[pid := s.procs[pid].(alive := false, token := Taken)]
  {
    var s1 := Step(s, BeginStop(t));
    assert s1.At(t) == Terminating(p, purpose);
    var s2 := Step(Step(s1, Dies(pid)), Reaped(pid));
    assert s2.At(t) == Terminating(p, purpose) && s2.CanReceive(s2.done);
  }

  lemma ServedIs(s: State, t: nat, p: Provider)
    requires s.At(t) == Starting(p)
    ensures var up := Served(s, t);
            && up.At(t) == Forwarding(p) && up.gate == s.gate && up.owner == Some(p)
            && up.cmd == up.done == Some(|s.procs|) && up.procs == s.procs + [Proc(p, true, Due, true)]
  {
    var s1 := Step(s, Launch(t));
    assert s1.At(t) == Awaiting(p, |s.procs|);
    assert s1.procs[|s.procs| := s1.procs[|s.procs|].(ready := true)] == s.procs + [Proc(p, true, Due, true)];
  }

  /** After its request a call gives the gate back and leaves the process to the next one. */
  lemma ThenReturns(s: State, t: nat, p: Provider, pid: nat)
    requires s.At(t) == Forwarding(p) && Holds(s.(gate := None), p, pid)
    ensures var end := Step(Step(s, Return(t)), Release(t)); Holds(end, p, pid) && end.At(t).Idle? && end.procs == s.procs
  {
    assert Step(s, Return(t)).At(t).Releasing?;
  }

  /** A request that finds the slot empty starts a server, is forwarded once it is ready, and leaves it running. */
  lemma FirstRequestIsServed(s: State, t: nat, p: Provider)
    requires s.gate.None? && s.cmd.None? && s.owner.None? && s.At(t).Idle?
    ensures var up := Served(Step(Step(Entered(s, t, p, false), Check(t)), BeginStop(t)), t);
            && up.At(t) == Forwarding(p) && up.gate == Some(t) && Holds(up.(gate := None), p, |s.procs|)
            && Holds(Step(Step(up, Return(t)), Release(t)), p, |s.procs|)
  {
    EnteredIs(s, t, p, false);
    var s1 := Step(Entered(s, t, p, false), Check(t));
    assert s1.At(t) == Stopping(p, ToStart);
    var s2 := Step(s1, BeginStop(t));
    assert s2.At(t) == Starting(p);
    ServedIs(s2, t, p);
    ThenReturns(Served(s2, t), t, p, |s.procs|);
  }

  /** A request for another model ends the process in the slot, waits for its exit, and starts its own. */
  lemma AnotherModelReplaces(s: State, t: nat, p: Provider, pid: nat, q: Provider)
    requires Holds(s, p, pid) && s.At(t).Idle? && q.key != p.key
    ensures var down := Exited(Step(Entered(s, t, q, false), Check(t)), t, pid);
            && down.At(t) == Starting(q) && down.cmd.None? && down.procs[pid] == Proc(p, false, Taken, true)
            && Served(down, t).At(t) == Forwarding(q) && Holds(Served(down, t).(gate := None), q, |s.procs|)
            && Served(down, t).procs[pid] == Proc(p, false, Taken, true)
  {
    EnteredIs(s, t, q, false);
    var s1 := Step(Entered(s, t, q, false), Check(t));
    assert s1.At(t) == Stopping(q, ToStart);
    ExitedIs(s1, t, q, ToStart, pid);
    ServedIs(Exited(s1, t, pid), t, q);
  }

  /** A provider that closes ends its own process and empties the slot; any other provider that closes changes nothing. */
  lemma ClosingEndsItsOwn(s: State, t: nat, p: Provider, pid: nat, q: Provider)
    requires Holds(s, p, pid) && s.At(t).Idle?
    ensures var closing := Step(Entered(s, t, q, true), BeginClose(t));
            if q == p then
              var end := Step(Exited(closing, t, pid), Release(t));
              end.gate.None? && end.At(t).Idle? && end.cmd.None? && end.owner.None?
              && end.procs == s.procs[pid := Proc(p, false, Taken, true)]
            else
              var end := Step(closing, Release(t));
              end.At(t).Idle? && Holds(end, p, pid) && end.procs == s.procs
  {
    EnteredIs(s, t, q, true);
    var closing := Step(Entered(s, t, q, true), BeginClose(t));
    if q == p {
      assert closing.At(t) == Stopping(p, ToClose);
      ExitedIs(closing, t, p, ToClose, pid);
      assert Exited(closing, t, pid).At(t).Releasing?;
    } else {
      assert closing.At(t).Releasing?;
    }
  }

  // Readiness.

  /** Whether the call stands in a startup that is not ready yet, or in giving it up. */
  predicate MidStartup(pc: Pc) {
    pc.Awaiting? || ((pc.Stopping? || pc.Terminating? || pc.Killing?) && pc.purpose.ToGiveUp?)
  }

  predicate SlotInStartup(s: State) { s.gate.Some? && MidStartup(s.At(s.gate.value)) }

  /** A startup is given up and its process does not stop. */
  predicate GivesUpInVain(s: State, a: Action) {
    ((a.TermTimesOut? && a.killFails && s.At(a.t).Terminating?) || (a.KillTimesOut? && s.At(a.t).Killing?))
    && s.At(a.t).purpose.ToGiveUp?
  }

  /** The process in the slot is ready, unless its own startup is under way. */
  ghost predicate SlotReady(s: State) {
    s.cmd.Some? && s.cmd.value < |s.procs| ==> (s.procs[s.cmd.value].ready <==> !SlotInStartup(s))
  }

  lemma StepReady(s: State, a: Action)
    requires Safe(s) && SlotReady(s) && !GivesUpInVain(s, a)
    ensures SlotReady(Step(s, a))
  {
    if Step(s, a) != s && !OfProcess(a) && !a.Call? && !a.Cancel? && !a.Enter? {
      assert Inside(s.At(a.t)) && s.gate == Some(a.t);
    }
  }

  /** A request reaches only a server that answered a health probe, in every run in which no startup is given
      up in vain. */
  lemma {:induction false} ForwardsWhenReady(actions: seq<Action>)
    requires forall k | 0 <= k < |actions| :: !GivesUpInVain(Run(actions[..k]), actions[k])
    ensures SlotReady(Run(actions))
    ensures forall t: nat | Run(actions).At(t).Forwarding? ::
              var s := Run(actions); s.cmd.Some? && s.cmd.value < |s.procs| && s.procs[s.cmd.value].ready
  {
    RunSafe(actions);
    if actions != [] {
      var front := actions[..|actions| - 1];
      assert forall k | 0 <= k < |front| :: front[..k] == actions[..k];
      ForwardsWhenReady(front);
      RunSafe(front);
      StepReady(Run(front), actions[|actions| - 1]);
    }
    forall t: nat | Run(actions).At(t).Forwarding?
      ensures var s := Run(actions); s.cmd.Some? && s.cmd.value < |s.procs| && s.procs[s.cmd.value].ready
    {
      assert Inside(Run(actions).At(t));
    }
  }

  /** The call after one that released finds the owner's key its own and the process not exited. */
  lemma NextCallForwards(s: State, t: nat, u: nat, q: Provider)
    requires s.At(t).Releasing? && u != t && s.At(u).Idle?
    requires s.owner.Some? && s.owner.value.key == q.key && !s.CanReceive(s.done)
    ensures var s' := Step(Step(Step(Step(s, Release(t)), Call(u, q, false)), Enter(u)), Check(u));
            s'.At(u) == Forwarding(q) && s'.cmd == s.cmd && s'.procs == s.procs
  {
    var s1 := Step(s, Release(t));
    var s2 := Step(s1, Call(u, q, false));
    var s3 := Step(s2, Enter(u));
    assert s3.At(u) == Checking(q);
  }

  lemma VainGiveUp(s: State, a: Action)
    requires Safe(s) && GivesUpInVain(s, a)
    ensures var s' := Step(s, a);
            s'.At(a.t).Releasing? && s' == s.(pcs := s'.pcs) && (forall u: nat | u != a.t :: s'.At(u) == s.At(u))
    ensures s.owner == Some(s.At(a.t).p) && SlotInStartup(s)
  {
    assert Inside(s.At(a.t));
  }

  /** Once a startup was given up in vain, the next call for the same key, if it comes before the exit, is
      forwarded to the process that never became ready. */
  lemma VainGiveUpForwardsUnready(actions: seq<Action>, a: Action, u: nat, q: Provider)
    requires GivesUpInVain(Run(actions), a) && SlotReady(Run(actions))
    requires !Run(actions).CanReceive(Run(actions).done)
    requires u != a.t && Run(actions).At(u).Idle? && q.key == Run(actions).At(a.t).p.key
    ensures var s := Run(actions + [a] + [Release(a.t)] + [Call(u, q, false)] + [Enter(u)] + [Check(u)]);
            s.At(u) == Forwarding(q) && s.cmd.Some? && s.cmd.value < |s.procs| && !s.procs[s.cmd.value].ready
  {
    RunSafe(actions);
    VainGiveUp(Run(actions), a);
    NextCallForwards(Step(Run(actions), a), a.t, u, q);
    RunSnoc(actions, a);
    RunSnoc(actions + [a], Release(a.t));
    RunSnoc(actions + [a] + [Release(a.t)], Call(u, q, false));
    RunSnoc(actions + [a] + [Release(a.t)] + [Call(u, q, false)], Enter(u));
    RunSnoc(actions + [a] + [Release(a.t)] + [Call(u, q, false)] + [Enter(u)], Check(u));
  }

  /** A startup given up while its process does not exit. */
  function StartupStuck(t: nat, p: Provider): seq<Action> {
    [Call(t, p, false), Enter(t), Check(t), BeginStop(t), Launch(t), StartupTimesOut(t), BeginStop(t),
     TermTimesOut(t, false)]
  }

  lemma RunAt(actions: seq<Action>, k: nat)
    requires k < |actions|
    ensures Run(actions[..k + 1]) == Step(Run(actions[..k]), actions[k])
  {
    assert actions[..k + 1] == actions[..k] + [actions[k]];
    RunSnoc(actions[..k], actions[k]);
  }

  lemma FirstHalf(t: nat, p: Provider)
    ensures var s := Run(StartupStuck(t, p)[..4]);
            s == INITIAL.(gate := Some(t), pcs := s.pcs) && s.At(t) == Starting(p) && s.pcs.Keys == {t}
  {
    var es := StartupStuck(t, p);
    assert es[..0] == [];
    RunAt(es, 0);
    RunAt(es, 1);
    RunAt(es, 2);
    RunAt(es, 3);
  }

  lemma Started(t: nat, p: Provider)
    ensures var s := Run(StartupStuck(t, p)[..6]);
            s == State(Some(t), Some(p), Some(0), Some(0), [Proc(p, true, Due, false)], s.pcs)
            && s.At(t) == Stopping(p, ToGiveUp) && s.pcs.Keys == {t}
  {
    var es := StartupStuck(t, p);
    FirstHalf(t, p);
    RunAt(es, 4);
    RunAt(es, 5);
  }

  /** That failure happens in a run: from here the next time-out gives the startup up in vain, and another call for
      the key finds the gate free, the process not exited, and no readiness. */
  lemma StartupCanStick(t: nat, p: Provider)
    ensures var s := Run(StartupStuck(t, p));
            && GivesUpInVain(s, KillTimesOut(t)) && SlotReady(s) && !s.CanReceive(s.done)
            && s.At(t) == Killing(p, ToGiveUp) && forall u: nat | u != t :: s.At(u).Idle?
  {
    var es := StartupStuck(t, p);
    Started(t, p);
    RunAt(es, 6);
    RunAt(es, 7);
    assert es[..8] == es;
  }
}
