/** Comparing two arms by the runs on which they disagree: the exact test, and the counting that feeds it. */
module Paired {
  import opened Binomial
  import opened Collections
  import opened Wrappers

  datatype Outcome = Outcome(taskID: string, repetition: int, arm: string, solved: bool, err: string) {
    predicate Errored() { err != "" }
    function Run(): RunKey { RunKey(taskID, repetition) }
  }

  /** One run of one task. */
  datatype RunKey = RunKey(task: string, repetition: int)

  datatype Comparison = Comparison(variantOnly: nat, baselineOnly: nat, both: nat, neither: nat, p: real) {
    function Discordant(): nat { variantOnly + baselineOnly }
    function Pairs(): nat { Discordant() + both + neither }
    predicate Decided() { Discordant() > 0 && p < 0.05 }
  }

  /** The share of the 2^n equally likely splits that are at least as lopsided as k of n. */
  ghost function TwoSided(n: nat, k: nat): real { |AsLopsided(n, k)| as real / Pow2(n) as real }

  // Division by a nonzero real, one algebraic step at a time.

  lemma QuotientTimes(a: real, d: real)
    requires d != 0.0
    ensures (a / d) * d == a
  {
  }

  lemma Cancel(x: real, y: real, d: real)
    requires d != 0.0 && x * d == y * d
    ensures x == y
  {
  }

  lemma Distribute(x: real, y: real, d: real)
    ensures (x + y) * d == x * d + y * d
  {
  }

  lemma ExactQuotient(a: nat, b: nat, c: nat)
    requires a * b == c && b > 0
    ensures c as real / b as real == a as real
  {
    QuotientTimes(c as real, b as real);
    assert a as real * b as real == c as real;
    Cancel(c as real / b as real, a as real, b as real);
  }

  lemma SumQuotients(a: real, b: real, d: real)
    requires d != 0.0
    ensures a / d + b / d == (a + b) / d
  {
    QuotientTimes(a, d);
    QuotientTimes(b, d);
    QuotientTimes(a + b, d);
    Distribute(a / d, b / d, d);
    Cancel(a / d + b / d, (a + b) / d, d);
  }

  /** n choose k, as the log-gamma expression spells it out. */
  function ChooseByFactorials(n: nat, k: nat): real
    requires k <= n
  {
    Factorial(n) as real / (Factorial(k) * Factorial(n - k)) as real
  }

  lemma PositiveProduct(a: nat, b: nat)
    requires a > 0 && b > 0
    ensures a * b > 0
  {
  }

  /** The exact sum of the first terms of the tail. */
  ghost function Tail(n: nat, terms: nat): real { SumChoose(n, terms) as real / Pow2(n) as real }

  function Term(n: nat, i: nat): real
    requires i <= n
  {
    ChooseByFactorials(n, i) / Pow2(n) as real
  }

  lemma TailStep(n: nat, i: nat)
    requires i <= n
    ensures Tail(n, i) + Term(n, i) == Tail(n, i + 1)
  {
    FactorialForm(n, i);
    PositiveProduct(Factorial(i), Factorial(n - i));
    ExactQuotient(Choose(n, i), Factorial(i) * Factorial(n - i), Factorial(n));
    SumQuotients(SumChoose(n, i) as real, Choose(n, i) as real, Pow2(n) as real);
  }

  function Clamp(p: real): real { if p < 1.0 then p else 1.0 }

  lemma ClampedTail(n: nat, k: nat)
    requires k <= n
    ensures Clamp(2.0 * Tail(n, Min(k, n - k) + 1)) == TwoSided(n, k)
  {
    ClampedTailCounts(n, k);
    ClampedQuotient(SumChoose(n, Min(k, n - k) + 1), Pow2(n));
  }

  method ExactBinomialTwoSided(k: nat, n: nat) returns (p: real)
    requires k <= n
    ensures p == TwoSided(n, k)
  {
    ClampedTail(n, k);
    if n == 0 {
      NothingToTest();
      return 1.0;
    }
    var lo := k;
    if n - k < lo {
      lo := n - k;
    }
    var tail := 0.0;
    EmptyTail(n);
    for i := 0 to lo + 1
      invariant tail == Tail(n, i)
    {
      TailStep(n, i);
      tail := tail + Term(n, i);
    }
    p := Clamp(2.0 * tail);
  }

  lemma EmptyTail(n: nat)
    ensures Tail(n, 0) == 0.0
  {
    QuotientTimes(0.0, Pow2(n) as real);
    Cancel(Tail(n, 0), 0.0, Pow2(n) as real);
  }

  lemma NothingToTest()
    ensures TwoSided(0, 0) == 1.0
  {
    ClampedTailCounts(0, 0);
    assert SumChoose(0, 1) == SumChoose(0, 0) + Choose(0, 0) == 1;
    ExactQuotient(1, 1, 1);
  }

  lemma ClampedQuotient(s: nat, d: nat)
    requires d > 0
    ensures 2.0 * (s as real / d as real) < 1.0 <==> 2 * s < d
    ensures 2.0 * (s as real / d as real) == (2 * s) as real / d as real
    ensures d as real / d as real == 1.0
  {
    SumQuotients(s as real, s as real, d as real);
    assert s as real + s as real == (2 * s) as real;
    QuotientBelow((2 * s) as real, d as real, 1.0);
    ExactQuotient(1, d, d);
  }

  lemma Order(x: real, y: real, d: real)
    requires d > 0.0
    ensures x < y <==> x * d < y * d
  {
  }

  lemma QuotientBelow(a: real, d: real, c: real)
    requires d > 0.0
    ensures a / d < c <==> a < c * d
  {
    QuotientTimes(a, d);
    Order(a / d, c, d);
  }

  /** The two directions of a split are equally surprising. */
  lemma TwoSidedSymmetric(n: nat, k: nat)
    requires k <= n
    ensures TwoSided(n, k) == TwoSided(n, n - k)
  {
    assert AsLopsided(n, k) == AsLopsided(n, n - k);
  }

  /** A more lopsided split is never less significant. */
  lemma TwoSidedMonotone(n: nat, j: nat, k: nat)
    requires j <= k <= n - k
    ensures TwoSided(n, j) <= TwoSided(n, k) <= 1.0
  {
    SubsetSize(AsLopsided(n, j), AsLopsided(n, k));
    SubsetSize(AsLopsided(n, k), Flips(n));
    FlipsSize(n);
    QuotientMonotone(|AsLopsided(n, j)|, |AsLopsided(n, k)|, Pow2(n));
    QuotientMonotone(|AsLopsided(n, k)|, Pow2(n), Pow2(n));
  }

  lemma QuotientMonotone(a: nat, b: nat, d: nat)
    requires a <= b && d > 0
    ensures a as real / d as real <= b as real / d as real
    ensures d as real / d as real == 1.0
  {
    QuotientTimes(a as real, d as real);
    QuotientBelow(b as real, d as real, a as real / d as real);
    ExactQuotient(1, d, d);
  }

  /** Five disagreements can never decide a comparison; from six on, unanimous ones do. */
  lemma DecidingTakesSix(n: nat)
    requires n > 0
    ensures (exists k | 0 <= k <= n :: TwoSided(n, k) < 0.05) <==> n >= 6
  {
    forall k: nat | k <= n ensures n < 6 ==> TwoSided(n, k) >= 0.05 {
      ClampedTailCounts(n, k);
      SumChooseAtLeastOne(n, Min(k, n - k) + 1);
      if n < 6 {
        SmallPowers();
        Pow2Monotone(1, n);
        Pow2Monotone(n, 5);
        TwentiethBound(|AsLopsided(n, k)|, Pow2(n));
      }
    }
    if n >= 6 {
      SmallPowers();
      Pow2Monotone(6, n);
      ClampedTailCounts(n, 0);
      assert SumChoose(n, 1) == SumChoose(n, 0) + Choose(n, 0) == 1;
      TwentiethBound(|AsLopsided(n, 0)|, Pow2(n));
      assert TwoSided(n, 0) < 0.05;
    }
  }

  lemma TwentiethBound(a: nat, d: nat)
    requires d > 0
    ensures a as real / d as real < 0.05 <==> 20 * a < d
  {
    QuotientBelow(a as real, d as real, 0.05);
  }

  lemma SmallPowers()
    ensures Pow2(1) == 2 && Pow2(5) == 32 && Pow2(6) == 64
  {
    assert Pow2(2) == 4;
    assert Pow2(3) == 8;
    assert Pow2(4) == 16;
  }

  lemma {:induction false} Pow2Monotone(a: nat, b: nat)
    requires a <= b
    ensures Pow2(a) <= Pow2(b)
  {
    if a < b {
      Pow2Monotone(a, b - 1);
    }
  }

  lemma {:induction false} SumChooseAtLeastOne(n: nat, to: nat)
    requires to > 0
    ensures SumChoose(n, to) >= 1
  {
    if to > 1 {
      SumChooseAtLeastOne(n, to - 1);
    } else {
      assert Choose(n, 0) == 1;
    }
  }

  /** Whether the last completed run of the arm under this key solved its task. */
  ghost function Latest(outcomes: seq<Outcome>, arm: string, run: RunKey): Option<bool> {
    if outcomes == [] then None
    else
      var o := outcomes[|outcomes| - 1];
      if !o.Errored() && o.arm == arm && o.Run() == run then Some(o.solved)
      else Latest(outcomes[..|outcomes| - 1], arm, run)
  }

  ghost function Runs(outcomes: seq<Outcome>): set<RunKey> { set o | o in outcomes :: o.Run() }

  /** The runs both arms completed, with these two verdicts. */
  ghost function Cell(outcomes: seq<Outcome>, baseline: string, variant: string, b: bool, v: bool): set<RunKey> {
    set r | r in Runs(outcomes) && Latest(outcomes, baseline, r) == Some(b) && Latest(outcomes, variant, r) == Some(v)
  }

  ghost function Shared(outcomes: seq<Outcome>, baseline: string, variant: string): set<RunKey> {
    set r | r in Runs(outcomes) && Latest(outcomes, baseline, r).Some? && Latest(outcomes, variant, r).Some?
  }

  /** The comparison of two arms, cell by cell. */
  ghost function Compare(outcomes: seq<Outcome>, baseline: string, variant: string): Comparison {
    var v, b := |Cell(outcomes, baseline, variant, false, true)|, |Cell(outcomes, baseline, variant, true, false)|;
    Comparison(v, b, |Cell(outcomes, baseline, variant, true, true)|,
               |Cell(outcomes, baseline, variant, false, false)|, TwoSided(v + b, v))
  }

  /** The last completed run of an arm decides, whatever came before it or concerns other runs and arms after it. */
  lemma {:induction false} LatestIsLast(a: seq<Outcome>, o: Outcome, b: seq<Outcome>)
    requires o.err == ""
    requires forall i | 0 <= i < |b| :: b[i].err != "" || b[i].arm != o.arm || b[i].Run() != o.Run()
    ensures Latest(a + [o] + b, o.arm, o.Run()) == Some(o.solved)
  {
    var all := a + [o] + b;
    if b == [] {
      assert all[|all| - 1] == o;
    } else {
      LatestIsLast(a, o, b[..|b| - 1]);
      assert all[..|all| - 1] == a + [o] + b[..|b| - 1];
    }
  }

  /** A run that ended in an error counts for neither arm, even over an earlier one that completed. */
  lemma ErroredCountsForNothing(outcomes: seq<Outcome>, o: Outcome, baseline: string, variant: string)
    requires o.err != ""
    ensures Compare(outcomes + [o], baseline, variant) == Compare(outcomes, baseline, variant)
  {
    forall x, y ensures Cell(outcomes + [o], baseline, variant, x, y) == Cell(outcomes, baseline, variant, x, y) {
      forall r ensures r in Cell(outcomes + [o], baseline, variant, x, y) <==> r in Cell(outcomes, baseline, variant, x, y) {
        ErroredInNoCell(outcomes, o, baseline, variant, x, y, r);
      }
    }
  }

  lemma ErroredInNoCell(outcomes: seq<Outcome>, o: Outcome, baseline: string, variant: string, x: bool, y: bool, r: RunKey)
    requires o.err != ""
    ensures r in Cell(outcomes + [o], baseline, variant, x, y) <==> r in Cell(outcomes, baseline, variant, x, y)
  {
    LatestSnoc(outcomes, o, baseline, r);
    LatestSnoc(outcomes, o, variant, r);
    assert forall p :: p in outcomes + [o] <==> p in outcomes || p == o;
    if r !in Runs(outcomes) {
      NoRunNoVerdict(outcomes, baseline, r);
    }
  }

  lemma LatestSnoc(outcomes: seq<Outcome>, o: Outcome, arm: string, run: RunKey)
    ensures Latest(outcomes + [o], arm, run)
         == if !o.Errored() && o.arm == arm && o.Run() == run then Some(o.solved) else Latest(outcomes, arm, run)
  {
    assert (outcomes + [o])[..|outcomes|] == outcomes;
  }

  lemma {:induction false} NoRunNoVerdict(outcomes: seq<Outcome>, arm: string, run: RunKey)
    requires run !in Runs(outcomes)
    ensures Latest(outcomes, arm, run).None?
  {
    if outcomes != [] {
      var front := outcomes[..|outcomes| - 1];
      assert outcomes[|outcomes| - 1] in outcomes && forall o | o in front :: o in outcomes;
      NoRunNoVerdict(front, arm, run);
    }
  }

  /** Both arms complete one more run, with these verdicts. */
  function OneMore(outcomes: seq<Outcome>, baseline: string, variant: string, run: RunKey, b: bool, v: bool): seq<Outcome> {
    outcomes + [Outcome(run.task, run.repetition, baseline, b, "")] + [Outcome(run.task, run.repetition, variant, v, "")]
  }

  lemma OneMoreRuns(outcomes: seq<Outcome>, baseline: string, variant: string, run: RunKey, b: bool, v: bool)
    ensures Runs(OneMore(outcomes, baseline, variant, run, b, v)) == Runs(outcomes) + {run}
  {
    var first, second := Outcome(run.task, run.repetition, baseline, b, ""), Outcome(run.task, run.repetition, variant, v, "");
    var all := OneMore(outcomes, baseline, variant, run, b, v);
    assert all == outcomes + [first] + [second];
    assert forall o :: o in all <==> o in outcomes || o == first || o == second;
    assert first in all && first.Run() == run && second.Run() == run;
    forall r ensures r in Runs(all) <==> r in Runs(outcomes) || r == run {
    }
  }

  lemma OneMoreLatest(outcomes: seq<Outcome>, baseline: string, variant: string, run: RunKey, b: bool, v: bool, r: RunKey)
    requires baseline != variant
    ensures var all := OneMore(outcomes, baseline, variant, run, b, v);
            && Latest(all, baseline, r) == (if r == run then Some(b) else Latest(outcomes, baseline, r))
            && Latest(all, variant, r) == (if r == run then Some(v) else Latest(outcomes, variant, r))
  {
    var first, second := Outcome(run.task, run.repetition, baseline, b, ""), Outcome(run.task, run.repetition, variant, v, "");
    LatestSnoc(outcomes, first, baseline, r);
    LatestSnoc(outcomes, first, variant, r);
    LatestSnoc(outcomes + [first], second, baseline, r);
    LatestSnoc(outcomes + [first], second, variant, r);
  }

  lemma OneMoreInCell(outcomes: seq<Outcome>, baseline: string, variant: string, run: RunKey, b: bool, v: bool,
                      x: bool, y: bool)
    requires baseline != variant && run !in Runs(outcomes)
    ensures |Cell(OneMore(outcomes, baseline, variant, run, b, v), baseline, variant, x, y)|
         == |Cell(outcomes, baseline, variant, x, y)| + if b == x && v == y then 1 else 0
  {
    var all := OneMore(outcomes, baseline, variant, run, b, v);
    var here := if b == x && v == y then {run} else {};
    OneMoreRuns(outcomes, baseline, variant, run, b, v);
    forall r ensures r in Cell(all, baseline, variant, x, y) <==> r in Cell(outcomes, baseline, variant, x, y) + here {
      OneMoreLatest(outcomes, baseline, variant, run, b, v, r);
    }
    assert Cell(all, baseline, variant, x, y) == Cell(outcomes, baseline, variant, x, y) + here;
    DisjointSize(Cell(outcomes, baseline, variant, x, y), here);
  }

  /** One more run that both arms completed adds to exactly one count: to the variant's when only the variant solved
      it, to the baseline's when only the baseline did. */
  lemma OneMoreRun(outcomes: seq<Outcome>, baseline: string, variant: string, run: RunKey, b: bool, v: bool)
    requires baseline != variant && run !in Runs(outcomes)
    ensures var c, d := Compare(outcomes, baseline, variant),
                        Compare(OneMore(outcomes, baseline, variant, run, b, v), baseline, variant);
            && d.variantOnly == c.variantOnly + (if v && !b then 1 else 0)
            && d.baselineOnly == c.baselineOnly + (if b && !v then 1 else 0)
            && d.both == c.both + (if b && v then 1 else 0)
            && d.neither == c.neither + (if !b && !v then 1 else 0)
  {
    OneMoreInCell(outcomes, baseline, variant, run, b, v, false, true);
    OneMoreInCell(outcomes, baseline, variant, run, b, v, true, false);
    OneMoreInCell(outcomes, baseline, variant, run, b, v, true, true);
    OneMoreInCell(outcomes, baseline, variant, run, b, v, false, false);
  }

  /** A comparison is decided exactly when there is a disagreement and fewer than one in twenty splits are as lopsided;
      never with fewer than six disagreements. */
  lemma DecidedExactly(outcomes: seq<Outcome>, baseline: string, variant: string)
    ensures var c := Compare(outcomes, baseline, variant);
            && (c.Decided() <==>
                  c.variantOnly + c.baselineOnly > 0 && TwoSided(c.variantOnly + c.baselineOnly, c.variantOnly) < 0.05)
            && (c.Decided() ==> c.variantOnly + c.baselineOnly >= 6)
  {
    var c := Compare(outcomes, baseline, variant);
    if c.Decided() {
      DecidingTakesSix(c.Discordant());
    }
  }

  /** Swapping the arms swaps the discordant counts and leaves the verdict alone. */
  lemma SwapArms(outcomes: seq<Outcome>, baseline: string, variant: string)
    ensures
      var c, d := Compare(outcomes, baseline, variant), Compare(outcomes, variant, baseline);
      && d.variantOnly == c.baselineOnly && d.baselineOnly == c.variantOnly
      && d.both == c.both && d.neither == c.neither && d.p == c.p && (d.Decided() <==> c.Decided())
  {
    forall x, y ensures Cell(outcomes, variant, baseline, x, y) == Cell(outcomes, baseline, variant, y, x) {
    }
    var c := Compare(outcomes, baseline, variant);
    TwoSidedSymmetric(c.Discordant(), c.variantOnly);
  }

  /** The four cells partition the runs both arms completed. */
  lemma CellsPartition(outcomes: seq<Outcome>, baseline: string, variant: string)
    ensures Cell(outcomes, baseline, variant, false, true) !! Cell(outcomes, baseline, variant, true, false)
            !! Cell(outcomes, baseline, variant, true, true) !! Cell(outcomes, baseline, variant, false, false)
    ensures Shared(outcomes, baseline, variant)
         == Cell(outcomes, baseline, variant, false, true) + Cell(outcomes, baseline, variant, true, false)
            + Cell(outcomes, baseline, variant, true, true) + Cell(outcomes, baseline, variant, false, false)
    ensures Compare(outcomes, baseline, variant).Pairs() == |Shared(outcomes, baseline, variant)|
  {
    var vo, bo := Cell(outcomes, baseline, variant, false, true), Cell(outcomes, baseline, variant, true, false);
    var both, neither := Cell(outcomes, baseline, variant, true, true), Cell(outcomes, baseline, variant, false, false);
    CellsCover(outcomes, baseline, variant, vo, bo, both, neither);
    FourApart(vo, bo, both, neither);
  }

  lemma CellsCover(outcomes: seq<Outcome>, baseline: string, variant: string,
                   vo: set<RunKey>, bo: set<RunKey>, both: set<RunKey>, neither: set<RunKey>)
    requires vo == Cell(outcomes, baseline, variant, false, true)
    requires bo == Cell(outcomes, baseline, variant, true, false)
    requires both == Cell(outcomes, baseline, variant, true, true)
    requires neither == Cell(outcomes, baseline, variant, false, false)
    ensures Shared(outcomes, baseline, variant) == vo + bo + both + neither
    ensures vo !! bo !! both !! neither
  {
    forall r ensures r in Shared(outcomes, baseline, variant) <==> r in vo + bo + both + neither {
      var b, v := Latest(outcomes, baseline, r), Latest(outcomes, variant, r);
      if b.Some? && v.Some? {
        assert b == Some(b.value) && v == Some(v.value);
        assert r in Runs(outcomes) ==> r in Cell(outcomes, baseline, variant, b.value, v.value);
        assert Cell(outcomes, baseline, variant, b.value, v.value) <= vo + bo + both + neither;
      }
    }
  }

  lemma FourApart<T>(a: set<T>, b: set<T>, c: set<T>, d: set<T>)
    requires a !! b !! c !! d
    ensures |a + b + c + d| == |a| + |b| + |c| + |d|
  {
    DisjointSize(a, b);
    DisjointSize(a + b, c);
    DisjointSize(a + b + c, d);
  }

  type Solved = map<RunKey, map<string, bool>>

  function Lookup(solved: Solved, run: RunKey, arm: string): Option<bool> {
    if run in solved && arm in solved[run] then Some(solved[run][arm]) else None
  }

  /** The part of a cell among the runs already counted. */
  ghost function Counted(solved: Solved, runs: set<RunKey>, baseline: string, variant: string, b: bool, v: bool)
    : set<RunKey>
  {
    set r | r in runs && Lookup(solved, r, baseline) == Some(b) && Lookup(solved, r, variant) == Some(v)
  }

  lemma CountOne(solved: Solved, runs: set<RunKey>, r: RunKey, baseline: string, variant: string, b: bool, v: bool)
    requires r !in runs
    ensures |Counted(solved, runs + {r}, baseline, variant, b, v)|
         == |Counted(solved, runs, baseline, variant, b, v)|
          + if Lookup(solved, r, baseline) == Some(b) && Lookup(solved, r, variant) == Some(v) then 1 else 0
  {
    var here := if Lookup(solved, r, baseline) == Some(b) && Lookup(solved, r, variant) == Some(v) then {r} else {};
    DisjointSize(Counted(solved, runs, baseline, variant, b, v), here);
    assert Counted(solved, runs + {r}, baseline, variant, b, v)
        == Counted(solved, runs, baseline, variant, b, v) + here;
  }

  method PairArms(outcomes: seq<Outcome>, baseline: string, variant: string) returns (p: Comparison)
    ensures p == Compare(outcomes, baseline, variant)
  {
    var solved := Collect(outcomes, baseline, variant);
    var variantOnly, baselineOnly, both, neither := 0, 0, 0, 0;
    var left := solved.Keys;
    while left != {}
      invariant left <= solved.Keys
      invariant variantOnly == |Counted(solved, solved.Keys - left, baseline, variant, false, true)|
      invariant baselineOnly == |Counted(solved, solved.Keys - left, baseline, variant, true, false)|
      invariant both == |Counted(solved, solved.Keys - left, baseline, variant, true, true)|
      invariant neither == |Counted(solved, solved.Keys - left, baseline, variant, false, false)|
      decreases left
    {
      var r :| r in left;
      ghost var done := solved.Keys - left;
      forall x, y { CountOne(solved, done, r, baseline, variant, x, y); }
      left := left - {r};
      assert solved.Keys - left == done + {r};
      if baseline !in solved[r] || variant !in solved[r] {
        continue;
      }
      var b, v := solved[r][baseline], solved[r][variant];
      if v && !b {
        variantOnly := variantOnly + 1;
      } else if b && !v {
        baselineOnly := baselineOnly + 1;
      } else if b && v {
        both := both + 1;
      } else {
        neither := neither + 1;
      }
    }
    forall x, y ensures Counted(solved, solved.Keys, baseline, variant, x, y) == Cell(outcomes, baseline, variant, x, y) {
    }
    assert solved.Keys - {} == solved.Keys;
    var pv := ExactBinomialTwoSided(variantOnly, variantOnly + baselineOnly);
    p := Comparison(variantOnly, baselineOnly, both, neither, pv);
  }

  /** The map agrees with the outcomes read so far, for the two arms compared. */
  ghost predicate Records(solved: Solved, outcomes: seq<Outcome>, baseline: string, variant: string) {
    && solved.Keys <= Runs(outcomes)
    && forall r, arm | arm == baseline || arm == variant :: Lookup(solved, r, arm) == Latest(outcomes, arm, r)
  }

  lemma RecordOne(solved: Solved, outcomes: seq<Outcome>, o: Outcome, baseline: string, variant: string)
    requires Records(solved, outcomes, baseline, variant)
    ensures o.Errored() || (o.arm != baseline && o.arm != variant) ==>
              Records(solved, outcomes + [o], baseline, variant)
    ensures !o.Errored() ==>
              var byArm := if o.Run() in solved then solved[o.Run()] else map[];
              Records(solved[o.Run() := byArm[o.arm := o.solved]], outcomes + [o], baseline, variant)
  {
    assert (outcomes + [o])[..|outcomes|] == outcomes;
    assert Runs(outcomes + [o]) == Runs(outcomes) + {o.Run()};
    var byArm := if o.Run() in solved then solved[o.Run()] else map[];
    var grown := solved[o.Run() := byArm[o.arm := o.solved]];
    forall r, arm | !o.Errored() && (arm == baseline || arm == variant)
      ensures Lookup(grown, r, arm) == Latest(outcomes + [o], arm, r)
    {
      assert Lookup(solved, r, arm) == Latest(outcomes, arm, r);
    }
  }

  /** The last completed verdict of each arm, run by run. */
  method Collect(outcomes: seq<Outcome>, baseline: string, variant: string) returns (solved: Solved)
    ensures Records(solved, outcomes, baseline, variant)
  {
    solved := map[];
    for i := 0 to |outcomes|
      invariant Records(solved, outcomes[..i], baseline, variant)
    {
      var o := outcomes[i];
      RecordOne(solved, outcomes[..i], o, baseline, variant);
      assert outcomes[..i + 1] == outcomes[..i] + [o];
      if o.Errored() || (o.arm != baseline && o.arm != variant) {
        continue;
      }
      var byArm := if o.Run() in solved then solved[o.Run()] else map[];
      solved := solved[o.Run() := byArm[o.arm := o.solved]];
    }
    assert outcomes[..|outcomes|] == outcomes;
  }
}
