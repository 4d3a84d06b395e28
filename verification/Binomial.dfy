/** Fair coins counted outcome by outcome, and the exact two-sided tail over them. */
module Binomial {
  import opened Collections

  function Pow2(n: nat): (r: nat)
    ensures r > 0
  {
    if n == 0 then 1 else 2 * Pow2(n - 1)
  }

  function Factorial(n: nat): (r: nat)
    ensures r > 0
  {
    if n == 0 then 1 else n * Factorial(n - 1)
  }

  /** Pascal's triangle. */
  ghost function Choose(n: nat, k: nat): nat {
    if k == 0 then 1 else if n == 0 then 0 else Choose(n - 1, k - 1) + Choose(n - 1, k)
  }

  ghost function Heads(s: seq<bool>): nat {
    if s == [] then 0 else Heads(s[..|s| - 1]) + if s[|s| - 1] then 1 else 0
  }

  /** Every outcome of n coins. */
  ghost function Flips(n: nat): set<seq<bool>> {
    if n == 0 then {[]} else Snoc(Flips(n - 1), true) + Snoc(Flips(n - 1), false)
  }

  ghost function Snoc(ss: set<seq<bool>>, b: bool): set<seq<bool>> { set s | s in ss :: s + [b] }

  /** The outcomes with from <= heads < to. */
  ghost function Between(n: nat, from: int, to: int): set<seq<bool>> {
    set s | s in Flips(n) && from <= Heads(s) < to
  }

  /** The outcomes at least as lopsided as k heads out of n. */
  ghost function AsLopsided(n: nat, k: nat): set<seq<bool>> {
    set s | s in Flips(n) && Abs(2 * Heads(s) - n) >= Abs(2 * k - n)
  }

  function Abs(x: int): nat { if x < 0 then -x else x }

  ghost function SumChoose(n: nat, to: nat): nat { if to == 0 then 0 else SumChoose(n, to - 1) + Choose(n, to - 1) }

  lemma InSnoc(ss: set<seq<bool>>, b: bool, s: seq<bool>)
    ensures s in Snoc(ss, b) <==> s != [] && s[|s| - 1] == b && s[..|s| - 1] in ss
  {
    if s in Snoc(ss, b) {
      var t :| t in ss && s == t + [b];
      assert s[..|s| - 1] == t;
    } else if s != [] && s[|s| - 1] == b {
      assert s == s[..|s| - 1] + [b];
    }
  }

  lemma SnocApart(a: set<seq<bool>>, b: set<seq<bool>>)
    ensures Snoc(a, true) !! Snoc(b, false)
  {
    forall s | s in Snoc(a, true) ensures s !in Snoc(b, false) {
      InSnoc(a, true, s);
      InSnoc(b, false, s);
    }
  }

  lemma {:induction false} SnocSize(ss: set<seq<bool>>, b: bool)
    ensures |Snoc(ss, b)| == |ss|
  {
    if ss != {} {
      var s :| s in ss;
      SnocSize(ss - {s}, b);
      assert Snoc(ss, b) == Snoc(ss - {s}, b) + {s + [b]};
      InSnoc(ss - {s}, b, s + [b]);
      assert (s + [b])[..|s|] == s;
    }
  }

  lemma {:induction false} FlipsAreAllOutcomes(n: nat, s: seq<bool>)
    ensures s in Flips(n) <==> |s| == n
    ensures |s| == n ==> 0 <= Heads(s) <= n
  {
    if n > 0 {
      InSnoc(Flips(n - 1), true, s);
      InSnoc(Flips(n - 1), false, s);
      if s != [] {
        FlipsAreAllOutcomes(n - 1, s[..|s| - 1]);
      }
    }
  }

  lemma {:induction false} FlipsSize(n: nat)
    ensures |Flips(n)| == Pow2(n)
  {
    if n > 0 {
      FlipsSize(n - 1);
      SnocSize(Flips(n - 1), true);
      SnocSize(Flips(n - 1), false);
      SnocApart(Flips(n - 1), Flips(n - 1));
    }
  }

  /** How many outcomes have exactly k heads. */
  ghost function Exactly(n: nat, k: int): nat { |Between(n, k, k + 1)| }

  /** Exactly k heads come up in Choose(n, k) outcomes. */
  lemma {:induction false} ExactlySize(n: nat, k: nat)
    ensures Exactly(n, k) == Choose(n, k)
    decreases n
  {
    if n == 0 {
      NoCoins(k);
    } else if k == 0 {
      ExactlySize(n - 1, 0);
      NoHeads(n);
    } else {
      ExactlySize(n - 1, k);
      ExactlySize(n - 1, k - 1);
      Pascal(n, k);
    }
  }

  lemma NoHeads(n: nat)
    requires n > 0 && Exactly(n - 1, 0) == Choose(n - 1, 0)
    ensures Exactly(n, 0) == Choose(n, 0)
  {
    ExactlyStep(n, 0);
    NegativeHeads(n - 1);
  }

  lemma Pascal(n: nat, k: nat)
    requires n > 0 && k > 0
    requires Exactly(n - 1, k - 1) == Choose(n - 1, k - 1) && Exactly(n - 1, k) == Choose(n - 1, k)
    ensures Exactly(n, k) == Choose(n, k)
  {
    ExactlyStep(n, k);
  }

  lemma NoCoins(k: nat)
    ensures Exactly(0, k) == if k == 0 then 1 else 0
  {
    assert Between(0, k, k + 1) == if k == 0 then {[]} else {};
  }

  lemma NegativeHeads(n: nat)
    ensures |Between(n, -1, 0)| == 0 && Choose(n, 0) == 1
  {
    assert Between(n, -1, 0) == {};
  }

  lemma ExactlyStep(n: nat, k: nat)
    requires n > 0
    ensures |Between(n, k, k + 1)| == |Between(n - 1, k - 1, k)| + |Between(n - 1, k, k + 1)|
  {
    var t, f := Between(n - 1, k - 1, k), Between(n - 1, k, k + 1);
    ExactlySplit(n, k);
    DisjointSize(Snoc(t, true), Snoc(f, false)) by { SnocApart(t, f); }
    SnocSize(t, true);
    SnocSize(f, false);
  }

  lemma ExactlySplit(n: nat, k: nat)
    requires n > 0
    ensures Between(n, k, k + 1)
         == Snoc(Between(n - 1, k - 1, k), true) + Snoc(Between(n - 1, k, k + 1), false)
  {
    var ends := Snoc(Between(n - 1, k - 1, k), true) + Snoc(Between(n - 1, k, k + 1), false);
    forall s | s in Flips(n) + ends ensures s in Between(n, k, k + 1) <==> s in ends {
      InSnoc(Between(n - 1, k - 1, k), true, s);
      InSnoc(Between(n - 1, k, k + 1), false, s);
      InSnoc(Flips(n - 1), true, s);
      InSnoc(Flips(n - 1), false, s);
    }
  }

  lemma {:induction false} BelowSize(n: nat, to: nat)
    ensures |Between(n, 0, to)| == SumChoose(n, to)
  {
    if to > 0 {
      BelowSize(n, to - 1);
      ExactlySize(n, to - 1);
      assert Between(n, 0, to) == Between(n, 0, to - 1) + Between(n, to - 1, to);
      assert Between(n, 0, to - 1) !! Between(n, to - 1, to);
    } else {
      assert Between(n, 0, 0) == {};
    }
  }

  ghost function Opposite(s: seq<bool>): seq<bool> { seq(|s|, i requires 0 <= i < |s| => !s[i]) }

  ghost function Opposites(ss: set<seq<bool>>): set<seq<bool>> { set s | s in ss :: Opposite(s) }

  lemma {:induction false} OppositeHeads(s: seq<bool>)
    ensures Heads(Opposite(s)) == |s| - Heads(s)
    ensures Opposite(Opposite(s)) == s
  {
    if s != [] {
      OppositeHeads(s[..|s| - 1]);
      assert Opposite(s)[..|s| - 1] == Opposite(s[..|s| - 1]);
    }
  }

  lemma {:induction false} OppositesSize(ss: set<seq<bool>>)
    ensures |Opposites(ss)| == |ss|
  {
    if ss != {} {
      var s :| s in ss;
      OppositesSize(ss - {s});
      assert Opposites(ss) == Opposites(ss - {s}) + {Opposite(s)};
      forall u | u in ss - {s} ensures Opposite(u) != Opposite(s) {
        OppositeHeads(u);
        OppositeHeads(s);
      }
    }
  }

  /** Turning every coin over maps the low tail onto the high tail. */
  lemma TailsMirror(n: nat, lo: nat)
    requires lo <= n
    ensures |Between(n, n - lo, n + 1)| == |Between(n, 0, lo + 1)|
  {
    var low, high := Between(n, 0, lo + 1), Between(n, n - lo, n + 1);
    forall s | s in low ensures Opposite(s) in high {
      FlipsAreAllOutcomes(n, s);
      FlipsAreAllOutcomes(n, Opposite(s));
      OppositeHeads(s);
    }
    forall s | s in high ensures s in Opposites(low) {
      FlipsAreAllOutcomes(n, s);
      FlipsAreAllOutcomes(n, Opposite(s));
      OppositeHeads(s);
      assert Opposite(s) in low;
    }
    assert high == Opposites(low);
    OppositesSize(low);
  }

  function Min(a: int, b: int): int { if b < a then b else a }

  lemma LopsidedIsBothTails(n: nat, k: nat)
    requires k <= n
    ensures AsLopsided(n, k) == Between(n, 0, Min(k, n - k) + 1) + Between(n, n - Min(k, n - k), n + 1)
  {
    forall s | s in Flips(n) ensures 0 <= Heads(s) <= n {
      FlipsAreAllOutcomes(n, s);
    }
  }

  /** Twice the smaller tail, clamped, counts the outcomes at least as lopsided: the middle needs the clamp. */
  lemma ClampedTailCounts(n: nat, k: nat)
    requires k <= n
    ensures |AsLopsided(n, k)| == Min(2 * SumChoose(n, Min(k, n - k) + 1), Pow2(n))
  {
    var lo := Min(k, n - k);
    LopsidedIsBothTails(n, k);
    BelowSize(n, lo + 1);
    TailsMirror(n, lo);
    if 2 * lo < n {
      TailsApart(n, lo);
    } else {
      MiddleIsEverything(n, lo);
    }
  }

  lemma TailsApart(n: nat, lo: nat)
    requires 2 * lo < n
    ensures |Between(n, 0, lo + 1) + Between(n, n - lo, n + 1)|
         == |Between(n, 0, lo + 1)| + |Between(n, n - lo, n + 1)| <= Pow2(n)
  {
    var low, high := Between(n, 0, lo + 1), Between(n, n - lo, n + 1);
    DisjointSize(low, high);
    SubsetSize(low + high, Flips(n));
    FlipsSize(n);
  }

  lemma MiddleIsEverything(n: nat, lo: nat)
    requires 2 * lo == n
    ensures |Between(n, 0, lo + 1) + Between(n, n - lo, n + 1)|
         == Pow2(n) <= |Between(n, 0, lo + 1)| + |Between(n, n - lo, n + 1)|
  {
    var low, high := Between(n, 0, lo + 1), Between(n, n - lo, n + 1);
    forall s | s in Flips(n) ensures 0 <= Heads(s) <= n {
      FlipsAreAllOutcomes(n, s);
    }
    assert low + high == Flips(n);
    FlipsSize(n);
    UnionSize(low, high);
  }

  lemma {:induction false} ChooseBeyond(n: nat, k: nat)
    requires k > n
    ensures Choose(n, k) == 0
  {
    if n > 0 {
      ChooseBeyond(n - 1, k);
      ChooseBeyond(n - 1, k - 1);
    }
  }

  /** The factorial form the log-gamma expression stands for. */
  lemma {:induction false} FactorialForm(n: nat, k: nat)
    requires k <= n
    ensures Choose(n, k) * (Factorial(k) * Factorial(n - k)) == Factorial(n)
    decreases n
  {
    if k == n {
      ChooseFull(n);
    } else if k > 0 {
      FactorialForm(n - 1, k - 1);
      FactorialForm(n - 1, k);
      var a, b := Choose(n - 1, k - 1), Choose(n - 1, k);
      var fk, fr := Factorial(k - 1), Factorial(n - 1 - k);
      assert Factorial(k) == k * fk && Factorial(n - k) == (n - k) * fr;
      calc {
        (a + b) * (Factorial(k) * Factorial(n - k));
        (a + b) * ((k * fk) * ((n - k) * fr));
        { Regroup(a, b, k, n - k, fk, fr); }
        k * (a * (fk * ((n - k) * fr))) + (n - k) * (b * ((k * fk) * fr));
        k * Factorial(n - 1) + (n - k) * Factorial(n - 1);
        { Collect(k, n - k, Factorial(n - 1)); }
        n * Factorial(n - 1);
      }
    }
  }

  lemma Regroup(a: int, b: int, k: int, r: int, fk: int, fr: int)
    ensures (a + b) * ((k * fk) * (r * fr)) == k * (a * (fk * (r * fr))) + r * (b * ((k * fk) * fr))
  {
    var x := fk * fr;
    assert (k * fk) * (r * fr) == k * r * x;
    assert fk * (r * fr) == r * x;
    assert (k * fk) * fr == k * x;
    assert (a + b) * (k * r * x) == a * (k * r * x) + b * (k * r * x);
    assert k * (a * (r * x)) == a * (k * r * x);
    assert r * (b * (k * x)) == b * (k * r * x);
  }

  lemma Collect(k: int, r: int, f: int)
    ensures k * f + r * f == (k + r) * f
  {
  }

  lemma {:induction false} ChooseFull(n: nat)
    ensures Choose(n, n) == 1
  {
    if n > 0 {
      ChooseFull(n - 1);
      ChooseBeyond(n - 1, n);
    }
  }
}
