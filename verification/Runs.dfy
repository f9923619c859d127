/** Induction over the steps of a run, and the steps of a run that are kept. */
module Runs {
  import opened Bytes

  /** What holds at one point and is kept by every step holds at every later point. */
  lemma {:induction false} StepByStep(holds: nat -> bool, first: nat, last: nat)
    requires first <= last && holds(first)
    requires forall k: nat :: first <= k < last && holds(k) ==> holds(k + 1)
    ensures holds(last)
    decreases last
  {
    if first < last {
      StepByStep(holds, first, last - 1);
    }
  }

  /** What the first i steps yield, in order. */
  function Kept<T>(pick: nat -> Option<T>, i: nat): (r: seq<T>)
    ensures |r| <= i
    decreases i
  {
    if i == 0 then [] else Kept(pick, i - 1) + match pick(i - 1) case None => [] case Some(a) => [a]
  }

  lemma {:induction false} KeptGrows<T>(pick: nat -> Option<T>, i: nat, n: nat)
    requires i <= n
    ensures Kept(pick, i) <= Kept(pick, n)
    decreases n
  {
    if i < n {
      KeptGrows(pick, i, n - 1);
    }
  }

  /** What step i yields stands where the steps before it left off. */
  lemma KeptAt<T>(pick: nat -> Option<T>, i: nat, n: nat)
    requires i < n && pick(i).Some?
    ensures |Kept(pick, i)| < |Kept(pick, n)| && Kept(pick, n)[|Kept(pick, i)|] == pick(i).value
  {
    KeptGrows(pick, i + 1, n);
  }

  /** Everything kept was yielded by some step. */
  lemma {:induction false} KeptFrom<T>(pick: nat -> Option<T>, m: nat, n: nat) returns (k: nat)
    requires m < |Kept(pick, n)|
    ensures k < n && pick(k).Some? && |Kept(pick, k)| == m
    decreases n
  {
    k := n - 1;
    if m < |Kept(pick, k)| {
      k := KeptFrom(pick, m, k);
    }
  }

  /** What holds of every yield holds of everything kept. */
  lemma {:induction false} KeptAll<T>(pick: nat -> Option<T>, n: nat, ok: T -> bool)
    requires forall k: nat :: k < n && pick(k).Some? ==> ok(pick(k).value)
    ensures forall m :: 0 <= m < |Kept(pick, n)| ==> ok(Kept(pick, n)[m])
    decreases n
  {
    if n > 0 {
      KeptAll(pick, n - 1, ok);
    }
  }
}
