/** One child's restart loop: the sliding restart window and the exponential backoff. */
module Supervisor {
  import opened Binomial
  import opened Wrappers

  const MAX_BACKOFF := 30 * SECOND

  datatype Spec = Spec(maxRestarts: int, window: int)

  /** What one turn of the loop meets: how long after the last wait it prunes, how long after that it starts the
      child, how long the child runs and how late the wait ends; and where the context was cancelled. */
  datatype Turn = Turn(idle: nat, gap: nat, ran: nat, late: nat, cancelledBefore: bool, cancelledInRun: bool,
                       cancelledInWait: bool)

  datatype Status = Running | Cancelled | GaveUp

  /** The loop's variables, what it did so far, and its clock, which only its own turns advance. */
  datatype State = State(clock: int, recent: seq<int>, starts: seq<int>, waits: seq<int>, backoff: int, status: Status)

  const INITIAL := State(0, [], [], [], SECOND, Running)

  /** The starts after cutoff, in order. */
  function After(times: seq<int>, cutoff: int): seq<int> {
    if times == [] then []
    else
      var t := times[|times| - 1];
      After(times[..|times| - 1], cutoff) + if t > cutoff then [t] else []
  }

  function NextBackoff(backoff: int): int { if 2 * backoff > MAX_BACKOFF then MAX_BACKOFF else 2 * backoff }

  /** The two clock readings of a turn. */
  function PruneAt(s: State, t: Turn): int { s.clock + t.idle }
  function StartAt(s: State, t: Turn): int { s.clock + t.idle + t.gap }

  function Step(spec: Spec, s: State, t: Turn): State {
    if s.status != Running then s
    else if t.cancelledBefore then s.(status := Cancelled)
    else
      var kept := After(s.recent, PruneAt(s, t) - spec.window);
      if |kept| >= spec.maxRestarts then s.(recent := kept, status := GaveUp)
      else
        var at := StartAt(s, t);
        var started := s.(clock := at + t.ran, recent := kept + [at], starts := s.starts + [at]);
        if t.cancelledInRun || t.cancelledInWait then started.(status := Cancelled)
        else started.(clock := at + t.ran + s.backoff + t.late, waits := s.waits + [s.backoff],
                      backoff := NextBackoff(s.backoff))
  }

  function Run(spec: Spec, turns: seq<Turn>): State {
    if turns == [] then INITIAL else Step(spec, Run(spec, turns[..|turns| - 1]), turns[|turns| - 1])
  }

  ghost predicate Ordered(times: seq<int>) { forall i, j | 0 <= i < j < |times| :: times[i] <= times[j] }

  /** Of any maxRestarts + 1 starts, the last comes at least a window after the first. */
  ghost predicate Spaced(spec: Spec, starts: seq<int>) {
    forall i, j | 0 <= i <= j < |starts| && i + spec.maxRestarts <= j :: starts[j] - starts[i] >= spec.window
  }

  /** The remembered times are the starts from n on, and those before n have left the window. */
  ghost predicate Remembers(spec: Spec, s: State, n: nat, now: int) {
    n <= |s.starts| && s.recent == s.starts[n..] && forall i | 0 <= i < n :: s.starts[i] <= now - spec.window
  }

  /** What every turn keeps. */
  ghost predicate Invariant(spec: Spec, s: State) {
    && Ordered(s.starts) && Spaced(spec, s.starts) && s.backoff >= 0
    && (forall i | 0 <= i < |s.starts| :: s.starts[i] <= s.clock)
    && exists n :: Remembers(spec, s, n, s.clock)
  }

  /** Pruning ordered times drops a front and keeps the rest. */
  lemma {:induction false} PruneDropsFront(times: seq<int>, cutoff: int) returns (m: nat)
    requires Ordered(times)
    ensures m <= |times| && After(times, cutoff) == times[m..]
    ensures forall i | 0 <= i < m :: times[i] <= cutoff
    ensures forall i | m <= i < |times| :: times[i] > cutoff
  {
    if times == [] {
      m := 0;
    } else {
      var front, t := times[..|times| - 1], times[|times| - 1];
      if t <= cutoff {
        m := |times|;
        NothingAfter(times, cutoff);
      } else {
        m := PruneDropsFront(front, cutoff);
        assert After(times, cutoff) == After(front, cutoff) + [t];
        assert times[m..] == front[m..] + [t];
        forall i | 0 <= i < m ensures times[i] <= cutoff {
          assert times[i] == front[i];
        }
        forall i | m <= i < |times| ensures times[i] > cutoff {
          assert i < |front| ==> times[i] == front[i];
        }
      }
    }
  }

  lemma {:induction false} NothingAfter(times: seq<int>, cutoff: int)
    requires forall i | 0 <= i < |times| :: times[i] <= cutoff
    ensures After(times, cutoff) == []
  {
    if times != [] {
      NothingAfter(times[..|times| - 1], cutoff);
    }
  }

  /** What is left after pruning at a time, as a part of all starts. */
  lemma PrunedStarts(spec: Spec, s: State, at: int, n: nat) returns (k: nat)
    requires Ordered(s.starts) && Remembers(spec, s, n, at)
    ensures k <= |s.starts| && After(s.recent, at - spec.window) == s.starts[k..]
    ensures forall i | 0 <= i < k :: s.starts[i] <= at - spec.window
    ensures forall i | k <= i < |s.starts| :: s.starts[i] > at - spec.window
  {
    var m := PruneDropsFront(s.recent, at - spec.window);
    k := n + m;
    assert s.starts[n..][m..] == s.starts[k..];
    forall i | k <= i < |s.starts| ensures s.starts[i] > at - spec.window {
      assert s.starts[i] == s.recent[i - n];
    }
    forall i | 0 <= i < k ensures s.starts[i] <= at - spec.window {
      assert i >= n ==> s.starts[i] == s.recent[i - n];
    }
  }

  lemma SpacedSnoc(spec: Spec, starts: seq<int>, pruned: int, at: int, k: nat)
    requires Spaced(spec, starts) && k <= |starts| && |starts| - k < spec.maxRestarts && pruned <= at
    requires forall i | 0 <= i < k :: starts[i] <= pruned - spec.window
    ensures Spaced(spec, starts + [at])
  {
  }

  /** The three ways a turn leaves the remembered times. */
  lemma StepShapes(spec: Spec, s: State, t: Turn, n: nat) returns (k: nat)
    requires Ordered(s.starts) && Remembers(spec, s, n, PruneAt(s, t))
    ensures k <= |s.starts| && forall i | 0 <= i < k :: s.starts[i] <= PruneAt(s, t) - spec.window
    ensures var s' := Step(spec, s, t);
            || (s'.starts == s.starts && s'.recent == s.recent && s'.clock == s.clock)
            || (s'.starts == s.starts && s'.recent == s.starts[k..] && s'.clock == s.clock
                && forall i | 0 <= i < k :: s.starts[i] <= PruneAt(s, t) - spec.window)
            || (s'.starts == s.starts + [StartAt(s, t)] && s'.recent == s.starts[k..] + [StartAt(s, t)]
                && |s.starts| - k < spec.maxRestarts)
  {
    k := PrunedStarts(spec, s, PruneAt(s, t), n);
  }

  lemma Started(spec: Spec, s: State, s': State, t: Turn, k: nat)
    requires Ordered(s.starts) && Spaced(spec, s.starts) && s'.clock >= StartAt(s, t) && s'.backoff >= 0
    requires forall i | 0 <= i < |s.starts| :: s.starts[i] <= s.clock
    requires k <= |s.starts| && forall i | 0 <= i < k :: s.starts[i] <= PruneAt(s, t) - spec.window
    requires s'.starts == s.starts + [StartAt(s, t)] && s'.recent == s.starts[k..] + [StartAt(s, t)]
    requires |s.starts| - k < spec.maxRestarts
    ensures Invariant(spec, s')
  {
    SpacedSnoc(spec, s.starts, PruneAt(s, t), StartAt(s, t), k);
    assert s'.recent == s'.starts[k..];
    assert Remembers(spec, s', k, s'.clock);
  }

  /** What also holds after the loop has ended. */
  ghost predicate Sound(spec: Spec, s: State) {
    Ordered(s.starts) && Spaced(spec, s.starts) && (s.status == Running ==> Invariant(spec, s))
  }

  lemma StepKeeps(spec: Spec, s: State, t: Turn)
    requires Sound(spec, s)
    ensures Sound(spec, Step(spec, s, t))
  {
    if s.status == Running {
      var n: nat :| Remembers(spec, s, n, s.clock);
      assert Remembers(spec, s, n, PruneAt(s, t));
      var k := StepShapes(spec, s, t, n);
      var s' := Step(spec, s, t);
      if s'.starts != s.starts {
        Started(spec, s, s', t, k);
      }
    }
  }

  lemma {:induction false} RunKeeps(spec: Spec, turns: seq<Turn>)
    ensures Sound(spec, Run(spec, turns))
  {
    if turns == [] {
      assert Remembers(spec, INITIAL, 0, 0);
      assert Spaced(spec, []);
    } else {
      RunKeeps(spec, turns[..|turns| - 1]);
      StepKeeps(spec, Run(spec, turns[..|turns| - 1]), turns[|turns| - 1]);
    }
  }

  /** How many starts lie in the window of this length that ends at x: x - length < start <= x. */
  ghost function InWindow(starts: seq<int>, x: int, length: int): nat {
    if starts == [] then 0
    else
      var t := starts[|starts| - 1];
      InWindow(starts[..|starts| - 1], x, length) + if x - length < t <= x then 1 else 0
  }

  lemma {:induction false} WindowIsTail(starts: seq<int>, x: int, length: int)
    requires forall i | 0 <= i < |starts| :: starts[i] <= x
    ensures InWindow(starts, x, length) == |After(starts, x - length)|
  {
    if starts != [] {
      WindowIsTail(starts[..|starts| - 1], x, length);
    }
  }

  /** Starts whose every maxRestarts + 1 span at least this length leave at most maxRestarts in a window of it. */
  lemma {:induction false} SpacedWindow(spec: Spec, starts: seq<int>, x: int)
    requires Ordered(starts) && Spaced(spec, starts) && spec.maxRestarts >= 0
    ensures InWindow(starts, x, spec.window) <= spec.maxRestarts
  {
    if starts != [] {
      var last := starts[|starts| - 1];
      if last > x {
        SpacedWindow(spec, starts[..|starts| - 1], x);
      } else {
        WindowIsTail(starts, x, spec.window);
        var m := PruneDropsFront(starts, x - spec.window);
        assert m < |starts| ==> last - starts[m] < spec.window;
      }
    }
  }

  /** In every run, every window of one window length that excludes its older end holds at most the budgeted number
      of starts. */
  lemma RestartBudgetHolds(spec: Spec, turns: seq<Turn>, x: int)
    requires spec.maxRestarts >= 0
    ensures InWindow(Run(spec, turns).starts, x, spec.window) <= spec.maxRestarts
  {
    RunKeeps(spec, turns);
    SpacedWindow(spec, Run(spec, turns).starts, x);
  }

  lemma RunSnoc(spec: Spec, turns: seq<Turn>, t: Turn)
    ensures Run(spec, turns + [t]) == Step(spec, Run(spec, turns), t)
  {
    assert (turns + [t])[..|turns|] == turns;
  }

  /** How many starts lie in the closed window that ends at x: x - length <= start <= x, in whole nanoseconds. */
  ghost function InClosedWindow(starts: seq<int>, x: int, length: int): nat { InWindow(starts, x, length + 1) }

  lemma {:induction false} WindowHolds(starts: seq<int>, x: int, length: int, i: nat, j: nat)
    requires i <= j < |starts| && forall k | i <= k <= j :: x - length < starts[k] <= x
    ensures InWindow(starts, x, length) >= j - i + 1
    decreases |starts|
  {
    var front := starts[..|starts| - 1];
    if j < |starts| - 1 {
      WindowHolds(front, x, length, i, j);
    } else if i < j {
      WindowHolds(front, x, length, i, j - 1);
    }
  }

  /** No start comes exactly one window after the start a full budget before it. */
  ghost predicate NoneOnTheEdge(spec: Spec, starts: seq<int>) {
    forall i, j | 0 <= i <= j < |starts| && j == i + spec.maxRestarts :: starts[j] - starts[i] > spec.window
  }

  /** A window that includes both ends holds at most the budgeted number of starts, wherever it lies, exactly when
      every start comes more than a window after the start a full budget before it. */
  lemma ClosedWindowExactly(spec: Spec, turns: seq<Turn>)
    requires spec.maxRestarts >= 0
    ensures (forall x :: InClosedWindow(Run(spec, turns).starts, x, spec.window) <= spec.maxRestarts)
       <==> NoneOnTheEdge(spec, Run(spec, turns).starts)
  {
    RunKeeps(spec, turns);
    if NoneOnTheEdge(spec, Run(spec, turns).starts) {
      OffTheEdge(spec, Run(spec, turns).starts);
    } else {
      var x := OnTheEdge(spec, Run(spec, turns).starts);
    }
  }

  lemma OffTheEdge(spec: Spec, starts: seq<int>)
    requires spec.maxRestarts >= 0 && Ordered(starts) && NoneOnTheEdge(spec, starts)
    ensures forall x :: InClosedWindow(starts, x, spec.window) <= spec.maxRestarts
  {
    var wider := Spec(spec.maxRestarts, spec.window + 1);
    forall i, j | 0 <= i <= j < |starts| && i + spec.maxRestarts <= j ensures starts[j] - starts[i] >= wider.window {
      assert starts[i + spec.maxRestarts] - starts[i] > spec.window;
    }
    forall x ensures InClosedWindow(starts, x, spec.window) <= spec.maxRestarts {
      SpacedWindow(wider, starts, x);
    }
  }

  lemma OnTheEdge(spec: Spec, starts: seq<int>) returns (x: int)
    requires spec.maxRestarts >= 0 && Ordered(starts) && !NoneOnTheEdge(spec, starts)
    ensures InClosedWindow(starts, x, spec.window) > spec.maxRestarts
  {
    var i, j :| 0 <= i <= j < |starts| && j == i + spec.maxRestarts && starts[j] - starts[i] <= spec.window;
    x := starts[j];
    WindowHolds(starts, x, spec.window + 1, i, j);
  }

  /** A run on the edge: a budget of one start a second, a child that exits at once and is started again when the
      first wait of one second ends. */
  lemma ClosedWindowCanOverspend(t: Turn)
    requires t == Turn(0, 0, 0, 0, false, false, false)
    ensures var starts := Run(Spec(1, SECOND), [t, t]).starts;
            starts == [0, SECOND] && InClosedWindow(starts, SECOND, SECOND) == 2
  {
    var spec := Spec(1, SECOND);
    RunSnoc(spec, [], t);
    RunSnoc(spec, [t], t);
    assert [] + [t] == [t] && [t] + [t] == [t, t];
    assert After([], 0 - spec.window) == [];
    SecondStart(spec, Step(spec, INITIAL, t), t);
    var starts := [0, SECOND];
    assert starts[..1] == [0] && [0][..0] == [];
    assert InWindow([0], SECOND, SECOND + 1) == 1;
  }

  lemma SecondStart(spec: Spec, s: State, t: Turn)
    requires spec == Spec(1, SECOND) && s.recent == [0] && s.starts == [0] && s.status == Running && s.clock == SECOND
    requires t == Turn(0, 0, 0, 0, false, false, false)
    ensures Step(spec, s, t).starts == [0, SECOND]
  {
    var m := PruneDropsFront(s.recent, 0);
  }

  /** The loop gives up exactly when the start a full budget ago is less than a window old at pruning; one that is
      exactly a window old no longer counts. */
  lemma GivesUpWhenSpent(spec: Spec, turns: seq<Turn>, t: Turn)
    requires Run(spec, turns).status == Running && !t.cancelledBefore && spec.maxRestarts > 0
    ensures var s := Run(spec, turns);
            Step(spec, s, t).status == GaveUp
            <==> |s.starts| >= spec.maxRestarts
                 && PruneAt(s, t) - s.starts[|s.starts| - spec.maxRestarts] < spec.window
  {
    var n := Memory(spec, turns);
    StepGivesUp(spec, Run(spec, turns), t, n);
  }

  /** A turn of a running loop ends it as cancelled exactly when the context was cancelled before it, or it was not
      given up and the context was cancelled while the child ran or the loop waited. Only a start adds a start. */
  lemma CancelledExactly(spec: Spec, turns: seq<Turn>, t: Turn)
    requires Run(spec, turns).status == Running
    ensures var s, s' := Run(spec, turns), Step(spec, Run(spec, turns), t);
            && (s'.status == Cancelled <==>
                  t.cancelledBefore || (s'.status != GaveUp && (t.cancelledInRun || t.cancelledInWait)))
            && s'.starts == (if t.cancelledBefore || s'.status == GaveUp then s.starts else s.starts + [StartAt(s, t)])
  {
  }

  /** Once given up or cancelled, the loop starts and waits for nothing more. */
  lemma {:induction false} EndsForGood(spec: Spec, turns: seq<Turn>, k: nat)
    requires k <= |turns| && Run(spec, turns[..k]).status != Running
    ensures Run(spec, turns) == Run(spec, turns[..k])
    decreases |turns|
  {
    if k == |turns| {
      assert turns[..k] == turns;
    } else {
      var front := turns[..|turns| - 1];
      assert front[..k] == turns[..k];
      EndsForGood(spec, front, k);
    }
  }

  /** Where the remembered times of a running loop begin. */
  lemma Memory(spec: Spec, turns: seq<Turn>) returns (n: nat)
    requires Run(spec, turns).status == Running
    ensures Ordered(Run(spec, turns).starts) && Remembers(spec, Run(spec, turns), n, Run(spec, turns).clock)
  {
    RunKeeps(spec, turns);
    n :| Remembers(spec, Run(spec, turns), n, Run(spec, turns).clock);
  }

  lemma StepGivesUp(spec: Spec, s: State, t: Turn, n: nat)
    requires Ordered(s.starts) && Remembers(spec, s, n, s.clock)
    requires s.status == Running && !t.cancelledBefore && spec.maxRestarts > 0
    ensures Step(spec, s, t).status == GaveUp
       <==> |s.starts| >= spec.maxRestarts
            && PruneAt(s, t) - s.starts[|s.starts| - spec.maxRestarts] < spec.window
  {
    PrunedCount(spec, s, PruneAt(s, t), n);
    var kept := After(s.recent, PruneAt(s, t) - spec.window);
    assert Step(spec, s, t).status == GaveUp <==> |kept| >= spec.maxRestarts;
  }

  /** Pruning leaves at least max times exactly when the max-th start from the end is in the window. */
  lemma PrunedCount(spec: Spec, s: State, at: int, n: nat)
    requires Ordered(s.starts) && Remembers(spec, s, n, at) && spec.maxRestarts > 0
    ensures |After(s.recent, at - spec.window)| >= spec.maxRestarts
       <==> |s.starts| >= spec.maxRestarts && s.starts[|s.starts| - spec.maxRestarts] > at - spec.window
  {
    var k := PrunedStarts(spec, s, at, n);
  }

  function WaitOf(k: nat): int { if Pow2(k) * SECOND > MAX_BACKOFF then MAX_BACKOFF else Pow2(k) * SECOND }

  lemma WaitOfNext(k: nat)
    ensures WaitOf(k + 1) == NextBackoff(WaitOf(k)) && WaitOf(k) >= SECOND
  {
    assert Pow2(k + 1) == 2 * Pow2(k);
  }

  /** What a turn does to the waits: nothing, or it adds the next one. */
  lemma StepWaits(spec: Spec, s: State, t: Turn)
    ensures var s' := Step(spec, s, t);
            || (s'.waits == s.waits && s'.backoff == s.backoff)
            || (s'.waits == s.waits + [s.backoff] && s'.backoff == NextBackoff(s.backoff))
  {
  }

  /** The k-th wait is two to the k seconds, capped at thirty. */
  lemma {:induction false} WaitsDouble(spec: Spec, turns: seq<Turn>)
    ensures Run(spec, turns).backoff == WaitOf(|Run(spec, turns).waits|)
    ensures forall k | 0 <= k < |Run(spec, turns).waits| :: Run(spec, turns).waits[k] == WaitOf(k)
  {
    if turns != [] {
      var s := Run(spec, turns[..|turns| - 1]);
      WaitsDouble(spec, turns[..|turns| - 1]);
      StepWaits(spec, s, turns[|turns| - 1]);
      WaitOfNext(|s.waits|);
    }
  }

  /** Each start comes at least a wait after the one before it. */
  ghost predicate Waited(s: State) {
    && |s.waits| <= |s.starts| <= |s.waits| + 1
    && (forall i, j | 0 <= i < j < |s.starts| && j == i + 1 :: s.starts[j] - s.starts[i] >= s.waits[i])
    && (s.status == Running ==>
          |s.waits| == |s.starts|
          && (s.starts != [] ==> s.clock >= s.starts[|s.starts| - 1] + s.waits[|s.waits| - 1]))
  }

  ghost predicate FollowWaits(starts: seq<int>) {
    forall i, j | 0 <= i < j < |starts| && j == i + 1 :: starts[j] - starts[i] >= WaitOf(i)
  }

  lemma StepWaited(spec: Spec, s: State, t: Turn)
    requires Waited(s)
    ensures Waited(Step(spec, s, t))
  {
  }

  /** In every run, between a start and the next lies at least the wait after it: two to the k seconds, or thirty. */
  lemma {:induction false} StartsFollowWaits(spec: Spec, turns: seq<Turn>)
    ensures Waited(Run(spec, turns)) && FollowWaits(Run(spec, turns).starts)
  {
    if turns != [] {
      StartsFollowWaits(spec, turns[..|turns| - 1]);
      StepWaited(spec, Run(spec, turns[..|turns| - 1]), turns[|turns| - 1]);
    }
    WaitsDouble(spec, turns);
  }

  // When closed windows hold the budget, for every run.

  /** The first n waits together. */
  function TotalWait(n: nat): int { if n == 0 then 0 else TotalWait(n - 1) + WaitOf(n - 1) }

  lemma {:induction false} WaitsGrow(i: nat, j: nat)
    requires i <= j
    ensures WaitOf(i) <= WaitOf(j)
  {
    if i < j {
      WaitsGrow(i, j - 1);
      WaitOfNext(j - 1);
    }
  }

  /** Starts n apart lie at least the first n waits apart. */
  lemma {:induction false} StartsApart(starts: seq<int>, i: nat, n: nat)
    requires FollowWaits(starts) && i + n < |starts|
    ensures starts[i + n] - starts[i] >= TotalWait(n)
    decreases n
  {
    if n > 0 {
      StartsApart(starts, i, n - 1);
      WaitsGrow(n - 1, i + n - 1);
    }
  }

  /** Children that exit at once, started again the moment each wait ends. */
  const NO_DELAY := Turn(0, 0, 0, 0, false, false, false)
  function Hasty(n: nat): seq<Turn> { seq(n, k => NO_DELAY) }

  /** After n hasty turns. */
  ghost predicate AfterHasty(s: State, n: nat) {
    && s.status == Running && |s.starts| == n && s.clock == TotalWait(n) && s.backoff == WaitOf(n)
    && (n > 0 ==> s.starts[0] == 0)
  }

  lemma HastySnoc(spec: Spec, n: nat)
    ensures Run(spec, Hasty(n + 1)) == Step(spec, Run(spec, Hasty(n)), NO_DELAY)
  {
    assert Hasty(n + 1) == Hasty(n) + [NO_DELAY];
    RunSnoc(spec, Hasty(n), NO_DELAY);
  }

  lemma {:induction false} HastyRun(spec: Spec, n: nat)
    requires n <= spec.maxRestarts
    ensures AfterHasty(Run(spec, Hasty(n)), n)
  {
    if n > 0 {
      var s := Run(spec, Hasty(n - 1));
      HastyRun(spec, n - 1);
      HastySnoc(spec, n - 1);
      var m := Memory(spec, Hasty(n - 1));
      StepOfHasty(spec, s, m);
      HastyGrows(s, Step(spec, s, NO_DELAY), n - 1);
    } else {
      assert Hasty(0) == [];
    }
  }

  lemma HastyGrows(s: State, s': State, n: nat)
    requires AfterHasty(s, n) && s'.status == Running && s'.starts == s.starts + [s.clock]
    requires s'.clock == s.clock + s.backoff && s'.backoff == NextBackoff(s.backoff)
    ensures AfterHasty(s', n + 1)
  {
    WaitOfNext(n);
    assert TotalWait(0) == 0;
  }

  lemma StepOfHasty(spec: Spec, s: State, n: nat)
    requires s.status == Running && |s.starts| < spec.maxRestarts && Remembers(spec, s, n, s.clock)
    ensures var s' := Step(spec, s, NO_DELAY);
            s'.status == Running && s'.starts == s.starts + [s.clock]
            && s'.clock == s.clock + s.backoff && s'.backoff == NextBackoff(s.backoff)
  {
    AfterIsShorter(s.recent, s.clock - spec.window);
  }

  lemma {:induction false} AfterIsShorter(times: seq<int>, cutoff: int)
    ensures |After(times, cutoff)| <= |times|
  {
    if times != [] {
      AfterIsShorter(times[..|times| - 1], cutoff);
    }
  }

  /** As many hasty turns as the budget allows, then one start exactly a window after the first. */
  function OnTheDot(spec: Spec): seq<Turn>
    requires spec.maxRestarts >= 0 && spec.window >= TotalWait(spec.maxRestarts)
  {
    Hasty(spec.maxRestarts) + [LastTurn(spec)]
  }

  function LastTurn(spec: Spec): Turn
    requires spec.maxRestarts >= 0 && spec.window >= TotalWait(spec.maxRestarts)
  {
    NO_DELAY.(idle := spec.window - TotalWait(spec.maxRestarts))
  }

  lemma OnTheDotRun(spec: Spec)
    requires spec.maxRestarts >= 0 && spec.window >= TotalWait(spec.maxRestarts)
    ensures Run(spec, OnTheDot(spec)) == Step(spec, Run(spec, Hasty(spec.maxRestarts)), LastTurn(spec))
  {
    RunSnoc(spec, Hasty(spec.maxRestarts), LastTurn(spec));
  }

  /** After the hasty turns the first start, a window old, no longer counts. */
  lemma NotGivenUp(spec: Spec)
    requires spec.maxRestarts >= 1 && spec.window >= TotalWait(spec.maxRestarts)
    ensures Step(spec, Run(spec, Hasty(spec.maxRestarts)), LastTurn(spec)).status != GaveUp
  {
    HastyRun(spec, spec.maxRestarts);
    GivesUpWhenSpent(spec, Hasty(spec.maxRestarts), LastTurn(spec));
  }

  lemma OnTheDotStarts(spec: Spec)
    requires spec.maxRestarts >= 1 && spec.window >= TotalWait(spec.maxRestarts)
    ensures var starts := Run(spec, OnTheDot(spec)).starts;
            |starts| == spec.maxRestarts + 1 && starts[0] == 0 && starts[spec.maxRestarts] == spec.window
  {
    HastyRun(spec, spec.maxRestarts);
    NotGivenUp(spec);
    OnTheDotRun(spec);
    LastStart(spec, Run(spec, Hasty(spec.maxRestarts)), LastTurn(spec));
  }

  lemma LastStart(spec: Spec, s: State, t: Turn)
    requires spec.maxRestarts >= 1 && AfterHasty(s, spec.maxRestarts) && Step(spec, s, t).status != GaveUp
    requires t == NO_DELAY.(idle := t.idle) && TotalWait(spec.maxRestarts) + t.idle == spec.window
    ensures Step(spec, s, t).starts == s.starts + [spec.window]
  {
  }

  /** For a budget of at least one start: every run keeps to it in every window that includes both ends exactly when
      the window is shorter than the waits that the budget forces. */
  lemma ClosedWindowsHoldExactly(spec: Spec)
    requires spec.maxRestarts >= 1
    ensures (forall turns: seq<Turn>, x: int :: InClosedWindow(Run(spec, turns).starts, x, spec.window) <= spec.maxRestarts)
       <==> spec.window < TotalWait(spec.maxRestarts)
  {
    if spec.window < TotalWait(spec.maxRestarts) {
      forall turns: seq<Turn>, x: int ensures InClosedWindow(Run(spec, turns).starts, x, spec.window) <= spec.maxRestarts {
        ShortWindowHolds(spec, turns, x);
      }
    } else {
      OnTheDotStarts(spec);
      ClosedWindowExactly(spec, OnTheDot(spec));
    }
  }

  lemma ShortWindowHolds(spec: Spec, turns: seq<Turn>, x: int)
    requires spec.maxRestarts >= 1 && spec.window < TotalWait(spec.maxRestarts)
    ensures InClosedWindow(Run(spec, turns).starts, x, spec.window) <= spec.maxRestarts
  {
    var starts := Run(spec, turns).starts;
    StartsFollowWaits(spec, turns);
    forall i, j | 0 <= i <= j < |starts| && j == i + spec.maxRestarts ensures starts[j] - starts[i] > spec.window {
      StartsApart(starts, i, spec.maxRestarts);
    }
    ClosedWindowExactly(spec, turns);
  }

  /** The defaults, five starts in five minutes: the waits come to 31 seconds, so a closed window can overspend. */
  lemma DefaultsCanOverspend()
    ensures TotalWait(5) == 31 * SECOND <= 300 * SECOND
    ensures exists turns, x :: InClosedWindow(Run(Spec(5, 300 * SECOND), turns).starts, x, 300 * SECOND) > 5
  {
    FirstWaits();
    ClosedWindowsHoldExactly(Spec(5, 300 * SECOND));
  }

  lemma FirstWaits()
    ensures TotalWait(5) == 31 * SECOND
  {
    assert Pow2(0) == 1 && Pow2(1) == 2 && Pow2(2) == 4;
    assert Pow2(3) == 8 && Pow2(4) == 16;
    assert TotalWait(1) == SECOND && TotalWait(2) == 3 * SECOND;
    assert TotalWait(3) == 7 * SECOND && TotalWait(4) == 15 * SECOND;
  }

  /** The slice of restart times: the filter rewrites its backing array in place. */
  class RestartTimes {
    var buf: array<int>
    var len: nat

    ghost predicate Valid()
      reads this
    {
      len <= buf.Length
    }

    ghost function Contents(): seq<int>
      requires Valid()
      reads this, buf
    {
      buf[..len]
    }

    constructor ()
      ensures Valid() && fresh(buf) && Contents() == []
    {
      buf, len := new int[0], 0;
    }

    /** kept := restartTimes[:0]; append the times after the cutoff to it; restartTimes = kept. */
    method Prune(cutoff: int)
      requires Valid()
      modifies this`len, buf
      ensures Valid() && buf == old(buf)
      ensures Contents() == After(old(Contents()), cutoff)
    {
      ghost var was := buf[..len];
      var kept := 0;
      for i := 0 to len
        invariant kept <= i <= len == old(len) && Valid() && buf == old(buf)
        invariant buf[..kept] == After(was[..i], cutoff)
        invariant buf[i..len] == was[i..]
      {
        assert was[..i + 1][..i] == was[..i];
        assert buf[i..len][0] == was[i];
        if buf[i] > cutoff {
          buf[kept] := buf[i];
          kept := kept + 1;
        }
        assert buf[i + 1..len] == was[i + 1..];
      }
      assert was[..len] == was;
      len := kept;
    }

    method Append(t: int)
      requires Valid()
      modifies this, buf
      ensures Valid() && (buf == old(buf) || fresh(buf))
      ensures Contents() == old(Contents()) + [t]
    {
      if len == buf.Length {
        var bigger := new int[2 * len + 1];
        for i := 0 to len
          invariant Valid() && len == old(len) && buf == old(buf) && buf[..] == old(buf[..])
          invariant bigger[..i] == buf[..i]
        {
          bigger[i] := buf[i];
        }
        buf := bigger;
      }
      buf[len] := t;
      len := len + 1;
    }
  }

  /** One turn of the loop, on the loop's variables. */
  method TakeTurn(spec: Spec, times: RestartTimes, s: State, t: Turn)
    returns (clock: int, starts: seq<int>, waits: seq<int>, backoff: int, status: Status)
    requires times.Valid() && s.recent == times.Contents() && s.status == Running
    modifies times, times.buf
    ensures times.Valid() && (times.buf == old(times.buf) || fresh(times.buf))
    ensures State(clock, times.Contents(), starts, waits, backoff, status) == Step(spec, s, t)
  {
    clock, starts, waits, backoff, status := s.clock, s.starts, s.waits, s.backoff, s.status;
    if t.cancelledBefore {
      status := Cancelled;
      return;
    }
    times.Prune(clock + t.idle - spec.window);
    if times.len >= spec.maxRestarts {
      status := GaveUp;
      return;
    }
    var now := clock + t.idle + t.gap;
    times.Append(now);
    starts := starts + [now];
    clock := now + t.ran;
    if t.cancelledInRun || t.cancelledInWait {
      status := Cancelled;
      return;
    }
    waits := waits + [backoff];
    clock := clock + backoff + t.late;
    backoff := backoff * 2;
    if backoff > MAX_BACKOFF {
      backoff := MAX_BACKOFF;
    }
  }

  /** supervise, over the turns of one run cut anywhere. */
  method Supervise(spec: Spec, turns: seq<Turn>) returns (starts: seq<int>, waits: seq<int>, status: Status)
    ensures starts == Run(spec, turns).starts && waits == Run(spec, turns).waits && status == Run(spec, turns).status
  {
    var times := new RestartTimes();
    var clock, backoff := 0, SECOND;
    starts, waits, status := [], [], Running;
    for i := 0 to |turns|
      invariant times.Valid() && fresh(times) && fresh(times.buf)
      invariant State(clock, times.Contents(), starts, waits, backoff, status) == Run(spec, turns[..i])
    {
      assert turns[..i + 1][..i] == turns[..i];
      if status != Running {
        continue;
      }
      clock, starts, waits, backoff, status :=
        TakeTurn(spec, times, State(clock, times.buf[..times.len], starts, waits, backoff, status), turns[i]);
    }
    assert turns[..|turns|] == turns;
  }
}
