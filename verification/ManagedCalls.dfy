/** The calls of a managed provider, statement by statement: whatever others do between any two statements, each
    call is a run of the slot's state machine, and so inherits what holds in all of them. */
module ManagedCalls {
  import opened ModelSlot
  import opened Wrappers

  /** Steps of other calls, and of processes. */
  predicate OfOthers(a: Action, t: nat) { OfProcess(a) || a.t != t }

  /** From here on the call began no stop. */
  ghost predicate NoStop(run: seq<Action>, from: nat, t: nat) {
    forall k | from <= k < |run| :: run[k] != BeginStop(t)
  }

  /** The steps by which a call fails. */
  predicate Failure(a: Action, t: nat) {
    a == Cancel(t) || a == TermTimesOut(t, true) || a == KillTimesOut(t) || a == Refuse(t) || a == ExitsInStartup(t)
    || a == StartupTimesOut(t)
  }

  /** The k-th step was such a failure, taken where the call stood. */
  ghost predicate FailsAt(run: seq<Action>, k: nat, t: nat) {
    k < |run| && Failure(run[k], t) && Step(Run(run[..k]), run[k]).At(t) != Run(run[..k]).At(t)
  }

  ghost predicate FailedSince(run: seq<Action>, from: nat, t: nat) { exists k :: from <= k && FailsAt(run, k, t) }

  lemma FailsNow(run: seq<Action>, a: Action, t: nat)
    requires Failure(a, t) && Step(Run(run), a).At(t) != Run(run).At(t)
    ensures FailedSince(run + [a], |run|, t)
  {
    assert (run + [a])[..|run|] == run;
    assert FailsAt(run + [a], |run|, t);
  }

  lemma FailedLater(r0: seq<Action>, r1: seq<Action>, from: nat, t: nat)
    requires r0 <= r1 && FailedSince(r0, from, t)
    ensures FailedSince(r1, from, t)
  {
    var k :| from <= k && FailsAt(r0, k, t);
    assert r1[..k] == r0[..k];
    assert FailsAt(r1, k, t);
  }

  lemma OthersLeaveMe(s: State, a: Action, t: nat)
    requires OfOthers(a, t)
    ensures Step(s, a).At(t) == s.At(t)
  {
  }

  /** The shared slot, the processes it started, and where each call stands. */
  class Slot {
    var gate: Option<nat>
    var owner: Option<Provider>
    var cmd: Option<nat>
    var done: Option<nat>
    var procs: seq<Proc>
    var pcs: map<nat, Pc>
    ghost var run: seq<Action>

    function Now(): State
      reads this
    {
      State(gate, owner, cmd, done, procs, pcs)
    }

    ghost predicate Valid()
      reads this
    {
      Now() == Run(run)
    }

    constructor ()
      ensures Valid() && run == [] && Now() == INITIAL
    {
      gate, owner, cmd, done, procs, pcs, run := None, None, None, None, [], map[], [];
    }

    /** The statement just done was this step of the machine. */
    ghost method Was(before: State, a: Action)
      requires before == Run(run) && Now() == Step(before, a)
      modifies this`run
      ensures Valid() && run == old(run) + [a]
    {
      RunSnoc(run, a);
      run := run + [a];
    }

    /** A statement after which only this call stands elsewhere. */
    method Move(t: nat, pc: Pc, ghost a: Action)
      requires Valid() && Step(Now(), a) == Now().Go(t, pc)
      modifies this`pcs, this`run
      ensures Valid() && run == old(run) + [a] && Now() == old(Now()).Go(t, pc)
    {
      ghost var before := Now();
      pcs := pcs[t := pc];
      Was(before, a);
    }

    /** Anything the others do while this call is between two statements, or blocked in one. */
    method Others(t: nat)
      requires Valid()
      modifies this
      ensures Valid() && old(run) <= run && Now().At(t) == old(Now().At(t))
      ensures NoStop(run, |old(run)|, t)
    {
      var steps: int := *;
      while steps > 0
        invariant Valid() && old(run) <= run && Now().At(t) == old(Now().At(t))
        invariant NoStop(run, |old(run)|, t)
      {
        steps := steps - 1;
        var a: Action := *;
        if OfOthers(a, t) {
          ghost var before := Now();
          var next := Step(Now(), a);
          OthersLeaveMe(before, a, t);
          gate, owner, cmd, done, procs, pcs := next.gate, next.owner, next.cmd, next.done, next.procs, next.pcs;
          Was(before, a);
        }
      }
    }

    method Begin(t: nat, p: Provider, closing: bool)
      requires Valid() && Now().At(t).Idle?
      modifies this
      ensures Valid() && old(run) <= run && Now().At(t) == Acquiring(p, closing)
      ensures NoStop(run, |old(run)|, t)
    {
      Move(t, Acquiring(p, closing), Call(t, p, closing));
    }

    /** A statement by which this call fails. */
    method Fail(t: nat, pc: Pc, ghost a: Action)
      requires Valid() && Step(Now(), a) == Now().Go(t, pc) && Failure(a, t) && Now().At(t) != pc
      modifies this`pcs, this`run
      ensures Valid() && run == old(run) + [a] && Now() == old(Now()).Go(t, pc) && FailedSince(run, |old(run)|, t)
    {
      FailsNow(run, a, t);
      Move(t, pc, a);
    }

    /** Blocks until the gate takes a value or the context ends. */
    method Acquire(t: nat, p: Provider, closing: bool) returns (ok: bool)
      requires Valid() && Now().At(t) == Acquiring(p, closing)
      modifies this
      ensures Valid() && old(run) <= run
      ensures Now().At(t) == if !ok then Idle else if closing then Closing(p) else Checking(p)
      ensures NoStop(run, |old(run)|, t)
      ensures ok || FailedSince(run, |old(run)|, t)
    {
      Others(t);
      ghost var before := Now();
      if gate.None? {
        ok := *;
      } else {
        ok := false;
      }
      if ok {
        gate := Some(t);
        pcs := pcs[t := if closing then Closing(p) else Checking(p)];
        Was(before, Enter(t));
      } else {
        Fail(t, Idle, Cancel(t));
      }
    }

    method GiveBack(t: nat)
      requires Valid() && Now().At(t).Releasing?
      modifies this
      ensures Valid() && old(run) <= run && Now().At(t).Idle? && NoStop(run, |old(run)|, t)
    {
      Others(t);
      ghost var before := Now();
      gate := None;
      pcs := pcs[t := Idle];
      Was(before, Release(t));
    }

    /** Receives the exit of the process in the slot and empties the slot. */
    method TakeExit(t: nat, p: Provider, purpose: Purpose)
      requires Valid() && (Now().At(t) == Terminating(p, purpose) || Now().At(t) == Killing(p, purpose))
      requires Now().CanReceive(done)
      modifies this
      ensures Valid() && old(run) <= run && Now().At(t) == Emptied(p, purpose) && cmd.None? && owner.None?
    {
      ghost var before := Now();
      procs := procs[done.value := procs[done.value].(token := Taken)];
      cmd, owner, done := None, None, None;
      pcs := pcs[t := Emptied(p, purpose)];
      Was(before, ReceiveExit(t));
    }

    /** Five seconds for the exit after SIGTERM; on time-out SIGKILL, which may fail. */
    method Terminate(t: nat, p: Provider, purpose: Purpose) returns (ok: bool)
      requires Valid() && Now().At(t) == Terminating(p, purpose)
      modifies this
      ensures Valid() && old(run) <= run
      ensures Now().At(t) == if ok then Emptied(p, purpose) else Releasing
      ensures ok || FailedSince(run, |old(run)|, t)
      ensures if ok then cmd.None? && owner.None? else cmd.Some? && owner.Some?
    {
      Others(t);
      StandsInStop(run, t);
      var timer: bool, killFails: bool := *, *;
      if !timer && Now().CanReceive(done) {
        TakeExit(t, p, purpose);
        ok := true;
      } else if killFails {
        Fail(t, Releasing, TermTimesOut(t, true));
        ok := false;
      } else {
        Move(t, Killing(p, purpose), TermTimesOut(t, false));
        ok := AfterKill(t, p, purpose);
      }
    }

    method AfterKill(t: nat, p: Provider, purpose: Purpose) returns (ok: bool)
      requires Valid() && Now().At(t) == Killing(p, purpose)
      modifies this
      ensures Valid() && old(run) <= run
      ensures Now().At(t) == if ok then Emptied(p, purpose) else Releasing
      ensures ok || FailedSince(run, |old(run)|, t)
      ensures if ok then cmd.None? && owner.None? else cmd.Some? && owner.Some?
    {
      Others(t);
      StandsInStop(run, t);
      var timer: bool := *;
      if !timer && Now().CanReceive(done) {
        TakeExit(t, p, purpose);
        ok := true;
      } else {
        Fail(t, Releasing, KillTimesOut(t));
        ok := false;
      }
    }

    /** Ends the process in the slot, if any; on failure the slot keeps naming it. */
    method Stop(t: nat, p: Provider, purpose: Purpose) returns (ok: bool)
      requires Valid() && Now().At(t) == Stopping(p, purpose)
      modifies this
      ensures Valid() && old(run) <= run
      ensures Now().At(t) == if ok then Emptied(p, purpose) else Releasing
      ensures ok || FailedSince(run, |old(run)|, t)
      ensures if ok then cmd.None? && owner.None? else cmd.Some? && owner.Some?
    {
      Others(t);
      RunSafe(run);
      if cmd.None? {
        Move(t, Emptied(p, purpose), BeginStop(t));
        return true;
      }
      Move(t, Terminating(p, purpose), BeginStop(t));
      ok := Terminate(t, p, purpose);
    }

    /** Whether the slot already serves the key; an exited process is received and forgotten. */
    method Reuse(t: nat, p: Provider) returns (ok: bool)
      requires Valid() && Now().At(t) == Checking(p)
      modifies this
      ensures Valid() && old(run) <= run && Now().At(t) == if ok then Forwarding(p) else Stopping(p, ToStart)
      ensures ok <==> owner.Some? && owner.value.key == p.key
      ensures ok ==> !Now().CanReceive(done)
    {
      Others(t);
      ghost var before := Now();
      ok := false;
      if owner.Some? && owner.value.key == p.key {
        if Now().CanReceive(done) {
          procs := procs[done.value := procs[done.value].(token := Taken)];
          cmd, owner := None, None;
        } else {
          ok := true;
        }
      }
      pcs := pcs[t := if ok then Forwarding(p) else Stopping(p, ToStart)];
      Was(before, Check(t));
    }

    /** Starts the server, unless the hash, the port or the start itself refuses. */
    method StartServer(t: nat, p: Provider) returns (ok: bool, pid: nat)
      requires Valid() && Now().At(t) == Starting(p)
      modifies this
      ensures Valid() && old(run) <= run && Now().At(t) == if ok then Awaiting(p, pid) else Releasing
      ensures ok || FailedSince(run, |old(run)|, t)
    {
      Others(t);
      ghost var before := Now();
      ok, pid := *, |procs|;
      if ok {
        procs := procs + [Proc(p, true, Due, false)];
        cmd, owner, done := Some(pid), Some(p), Some(pid);
        pcs := pcs[t := Awaiting(p, pid)];
        Was(before, Launch(t));
      } else {
        Fail(t, Releasing, Refuse(t));
      }
    }

    /** The startup loop: ticks whose probe fails, then an exit, the deadline, or a probe that succeeds. */
    method AwaitReady(t: nat, p: Provider, pid: nat) returns (ok: bool)
      requires Valid() && Now().At(t) == Awaiting(p, pid)
      modifies this
      ensures Valid() && old(run) <= run && Now().At(t) == if ok then Forwarding(p) else Releasing
      ensures ok || FailedSince(run, |old(run)|, t)
    {
      var ticks: int := *;
      while ticks > 0
        invariant Valid() && old(run) <= run && Now().At(t) == Awaiting(p, pid)
      {
        ticks := ticks - 1;
        Others(t);
      }
      Others(t);
      var exited: bool, late: bool := *, *;
      if exited && Now().CanReceive(Some(pid)) {
        ExitInStartup(t, p, pid);
        ok := false;
      } else if late {
        GiveUp(t, p, pid);
        ok := false;
      } else {
        ProbeSucceeds(t, p, pid);
        ok := true;
      }
    }

    method GiveUp(t: nat, p: Provider, pid: nat)
      requires Valid() && Now().At(t) == Awaiting(p, pid)
      modifies this
      ensures Valid() && old(run) <= run && Now().At(t) == Releasing && FailedSince(run, |old(run)|, t)
    {
      Fail(t, Stopping(p, ToGiveUp), StartupTimesOut(t));
      ghost var failed := run;
      var stopped := Stop(t, p, ToGiveUp);
      FailedLater(failed, run, |old(run)|, t);
    }

    method ExitInStartup(t: nat, p: Provider, pid: nat)
      requires Valid() && Now().At(t) == Awaiting(p, pid) && Now().CanReceive(Some(pid))
      modifies this
      ensures Valid() && old(run) <= run && Now().At(t) == Releasing && FailedSince(run, |old(run)|, t)
    {
      ghost var before := Now();
      FailsNow(run, ExitsInStartup(t), t);
      procs := procs[pid := procs[pid].(token := Taken)];
      cmd, owner := None, None;
      pcs := pcs[t := Releasing];
      Was(before, ExitsInStartup(t));
    }

    method ProbeSucceeds(t: nat, p: Provider, pid: nat)
      requires Valid() && Now().At(t) == Awaiting(p, pid)
      modifies this
      ensures Valid() && old(run) <= run && Now().At(t) == Forwarding(p)
    {
      RunSafe(run);
      assert Inside(Now().At(t));
      ghost var before := Now();
      procs := procs[pid := procs[pid].(ready := true)];
      pcs := pcs[t := Forwarding(p)];
      Was(before, Healthy(t));
    }

    method Prepare(t: nat, p: Provider) returns (ok: bool)
      requires Valid() && Now().At(t) == Checking(p)
      modifies this
      ensures Valid() && old(run) <= run && Now().At(t) == if ok then Forwarding(p) else Releasing
      ensures ok || FailedSince(run, |old(run)|, t)
    {
      ok := Reuse(t, p);
      if ok {
        return;
      }
      ok := Stop(t, p, ToStart);
      if !ok {
        return;
      }
      var pid;
      ok, pid := StartServer(t, p);
      if ok {
        ok := AwaitReady(t, p, pid);
      }
    }

    /** Prepare and then the provider's own call. */
    method Forward(t: nat, p: Provider) returns (forwarded: bool, ghost at: nat)
      requires Valid() && Now().At(t) == Checking(p)
      modifies this
      ensures Valid() && old(run) <= run && Now().At(t).Releasing?
      ensures if forwarded then |old(run)| <= at && ForwardsAt(run, at, t, p) else FailedSince(run, |old(run)|, t)
    {
      at := 0;
      forwarded := Prepare(t, p);
      if forwarded {
        at := |run|;
        Serving(run, t, p);
        assert run[..at] == run;
        ghost var now := run;
        Others(t);
        Move(t, Releasing, Return(t));
        ForwardedLater(now, run, at, t, p);
      }
    }

    /** Chat, and every other request, between acquire and release: it forwards with the gate held, to a process of its
        key, and while no second one is alive. It comes to nothing only by a failure of its own. */
    method Chat(t: nat, p: Provider) returns (forwarded: bool, ghost at: nat)
      requires Valid() && Now().At(t).Idle?
      modifies this
      ensures Valid() && old(run) <= run && Now().At(t).Idle?
      ensures if forwarded then |old(run)| <= at && ForwardsAt(run, at, t, p) else FailedSince(run, |old(run)|, t)
    {
      forwarded, at := false, 0;
      Begin(t, p, false);
      var ok := Acquire(t, p, false);
      if !ok {
        return;
      }
      forwarded, at := Forward(t, p);
      ghost var upto := run;
      GiveBack(t);
      if forwarded {
        ForwardedLater(upto, run, at, t, p);
      } else {
        FailedLater(upto, run, |old(run)|, t);
      }
    }

    /** What Close does inside the gate: it stops the process exactly if this very provider owns it, and when that
        goes well the provider owns nothing any more. */
    method StopMine(t: nat, p: Provider) returns (ok: bool, stopped: bool, ghost at: nat)
      requires Valid() && Now().At(t) == Closing(p)
      modifies this
      ensures Valid() && old(run) <= run && Now().At(t).Releasing? && |old(run)| <= at
      ensures if stopped then OwnsAt(run, at, t, p) else NoStop(run, |old(run)|, t)
      ensures if ok then ClearedAt(run, |run|, t, p) else FailedSince(run, |old(run)|, t)
    {
      ok := true;
      Others(t);
      stopped, at := owner == Some(p), |run|;
      assert run[..at] == run;
      ghost var now := run;
      Move(t, if stopped then Stopping(p, ToClose) else Releasing, BeginClose(t));
      if stopped {
        ok := Stop(t, p, ToClose);
        OwnedLater(now, run, at, t, p);
      }
      RunSafe(run);
      assert Inside(Now().At(t));
      assert run[..|run|] == run;
    }

    /** Close: the stop begins where this provider owns the process, if it does; and when Close goes well there is a
        moment, with the gate held and nothing left to do, at which the provider owns none. */
    method Close(t: nat, p: Provider) returns (ok: bool, stopped: bool, ghost at: nat, ghost clear: nat)
      requires Valid() && Now().At(t).Idle?
      modifies this
      ensures Valid() && old(run) <= run && Now().At(t).Idle?
      ensures if stopped then |old(run)| <= at && OwnsAt(run, at, t, p) else NoStop(run, |old(run)|, t)
      ensures if ok then |old(run)| <= clear && ClearedAt(run, clear, t, p) else FailedSince(run, |old(run)|, t)
    {
      stopped, at, clear := false, 0, 0;
      Begin(t, p, true);
      ok := Acquire(t, p, true);
      if !ok {
        return;
      }
      ok, stopped, at := StopMine(t, p);
      ghost var upto := run;
      GiveBack(t);
      clear := |upto|;
      if stopped {
        OwnedLater(upto, run, at, t, p);
      }
      if ok {
        ClearedLater(upto, run, clear, t, p);
      } else {
        FailedLater(upto, run, |old(run)|, t);
      }
    }
  }

  /** At this point of the run the call stood at its request, inside the gate, with its own model alone. */
  ghost predicate ForwardsAt(run: seq<Action>, at: nat, t: nat, p: Provider) {
    at <= |run| && Run(run[..at]).At(t) == Forwarding(p) && Run(run[..at]).gate == Some(t) && ServesAlone(Run(run[..at]), p)
  }

  lemma ForwardedLater(r0: seq<Action>, r1: seq<Action>, at: nat, t: nat, p: Provider)
    requires r0 <= r1 && ForwardsAt(r0, at, t, p)
    ensures ForwardsAt(r1, at, t, p)
  {
    assert r1[..at] == r0[..at];
  }

  /** At this point of the run the call stood at the check of Close, and its provider owned the process. */
  ghost predicate OwnsAt(run: seq<Action>, at: nat, t: nat, p: Provider) {
    at <= |run| && Run(run[..at]).At(t) == Closing(p) && Run(run[..at]).owner == Some(p)
  }

  lemma OwnedLater(r0: seq<Action>, r1: seq<Action>, at: nat, t: nat, p: Provider)
    requires r0 <= r1 && OwnsAt(r0, at, t, p)
    ensures OwnsAt(r1, at, t, p)
  {
    assert r1[..at] == r0[..at];
  }

  /** At this point of the run the call held the gate with nothing left to do, and its provider owned no process. */
  ghost predicate ClearedAt(run: seq<Action>, at: nat, t: nat, p: Provider) {
    at <= |run| && Run(run[..at]).At(t).Releasing? && Run(run[..at]).gate == Some(t) && Run(run[..at]).owner != Some(p)
  }

  lemma ClearedLater(r0: seq<Action>, r1: seq<Action>, at: nat, t: nat, p: Provider)
    requires r0 <= r1 && ClearedAt(r0, at, t, p)
    ensures ClearedAt(r1, at, t, p)
  {
    assert r1[..at] == r0[..at];
  }

  lemma StandsInStop(run: seq<Action>, t: nat)
    requires Run(run).At(t).Terminating? || Run(run).At(t).Killing?
    ensures Run(run).cmd.Some? && Run(run).owner.Some?
  {
    RunSafe(run);
    assert Inside(Run(run).At(t));
  }

  /** The process in the slot serves the key, and no other owned process is alive. */
  ghost predicate ServesAlone(s: State, p: Provider) {
    && s.cmd.Some? && s.cmd.value < |s.procs| && s.procs[s.cmd.value].owner.key == p.key
    && forall pid: nat | pid < |s.procs| && s.procs[pid].alive :: s.cmd == Some(pid)
  }

  lemma Serving(run: seq<Action>, t: nat, p: Provider)
    requires Run(run).At(t) == Forwarding(p)
    ensures Run(run).gate == Some(t) && ServesAlone(Run(run), p)
  {
    ForwardsToItsOwnModel(run, t);
    RunSafe(run);
  }
}
