/** The difference of two sequences with repetitions: `DistinctSequence` driven by one of two policies, one for sorted
    operands and one that counts. */
module Diffs {
  import opened Common

  // ----- what a difference is -----

  /** `src` without the first copies of each value, as many as `budget` has. */
  ghost function Dropped(src: seq<int>, budget: multiset<int>): seq<int>
  {
    if src == [] then []
    else if src[0] in budget then Dropped(src[1..], budget - multiset{src[0]})
    else [src[0]] + Dropped(src[1..], budget)
  }

  /** So of m copies on the left and n on the right, max(m - n, 0) are left. */
  lemma {:induction false} DroppedIsDifference(src: seq<int>, budget: multiset<int>)
    ensures multiset(Dropped(src, budget)) == multiset(src) - budget
  {
    if src != [] {
      assert src == [src[0]] + src[1..];
      if src[0] in budget {
        DroppedIsDifference(src[1..], budget - multiset{src[0]});
      } else {
        DroppedIsDifference(src[1..], budget);
      }
    }
  }

  /** Values that do not occur any more do not matter. */
  lemma {:induction false} DroppedDepends(src: seq<int>, b: multiset<int>, c: multiset<int>)
    requires forall x | x in src :: b[x] == c[x]
    ensures Dropped(src, b) == Dropped(src, c)
  {
    if src != [] {
      var x := src[0];
      assert x in src && forall y | y in src[1..] :: y in src;
      if x in b {
        assert x in c;
        DroppedDepends(src[1..], b - multiset{x}, c - multiset{x});
      } else {
        assert x !in c;
        DroppedDepends(src[1..], b, c);
      }
    }
  }

  lemma DroppedFirst(src: seq<int>, b: multiset<int>)
    requires src != []
    ensures Dropped(src, b)
         == if src[0] in b then Dropped(src[1..], b - multiset{src[0]}) else [src[0]] + Dropped(src[1..], b)
    ensures forall x | x in src[1..] :: x in src
  {
  }

  lemma DroppedNothing()
    ensures forall b :: Dropped([], b) == []
  {
  }

  lemma SortedStays(s: seq<int>)
    ensures Sorted(s) && s != [] ==> Sorted(s[1..])
  {
  }

  lemma SortedTail(s: seq<int>)
    requires Sorted(s) && s != []
    ensures Sorted(s[1..]) && forall x | x in s :: s[0] <= x
    ensures multiset(s) == multiset{s[0]} + multiset(s[1..])
  {
    assert s == [s[0]] + s[1..];
  }

  // ----- sorted operands -----

  class OrderedOrderedPolicy {
    const all: seq<int>
    /** Whether the subtrahend offers `lower_bound`. */
    const skipping: bool
    /** What is left of the subtrahend. */
    var subtrahend: seq<int>

    ghost predicate Valid()
      reads this
    {
      Sorted(all) && Sorted(subtrahend)
    }

    constructor (sub: seq<int>, skipping: bool)
      requires Sorted(sub)
      ensures Valid() && all == sub
    {
      all, this.skipping, subtrahend := sub, skipping, sub;
    }

    /** `opt_next`, after a comparison that found the subtrahend behind: up to the first value not below `x`, step by step
        or with `lower_bound`. */
    method CatchUp(x: int)
      requires Valid() && subtrahend != [] && subtrahend[0] < x
      modifies this`subtrahend
      ensures Valid() && subtrahend == LowerBound(old(subtrahend), x)
      ensures forall y | x <= y :: multiset(subtrahend)[y] == old(multiset(subtrahend))[y]
    {
      forall y | x <= y
        ensures multiset(LowerBound(subtrahend, x))[y] == multiset(subtrahend)[y]
      {
        LowerBoundKeeps(subtrahend, x, y);
      }
      LowerBoundKeeps(subtrahend, x, x);
      if skipping && subtrahend[0] < x {
        subtrahend := LowerBound(subtrahend, x);
        return;
      }
      subtrahend := subtrahend[1..];
      while subtrahend != [] && subtrahend[0] < x
        invariant LowerBound(subtrahend, x) == LowerBound(old(subtrahend), x)
        decreases |subtrahend|
      {
        subtrahend := subtrahend[1..];
      }
    }

    /** `operator()`: whether to keep `x`; what is above `x` in the subtrahend stays. */
    method Keep(step: nat, x: int) returns (keep: bool)
      requires Valid()
      modifies this`subtrahend
      ensures Valid()
      ensures var before := multiset(if step == 0 then all else old(subtrahend));
        && (keep <==> x !in before)
        && forall y | x <= y :: multiset(subtrahend)[y] == before[y] - if !keep && y == x then 1 else 0
    {
      if step == 0 {
        subtrahend := all;
      }
      if subtrahend == [] {
        return true;
      }
      if subtrahend[0] < x {
        CatchUp(x);
        if subtrahend == [] {
          return true;
        }
      }
      SortedTail(subtrahend);
      if subtrahend[0] == x {
        subtrahend := subtrahend[1..];
        return false;
      }
      return true;
    }
  }

  // ----- counting -----

  /** How often a value occurs in the subtrahend, and how often it was dropped, over all generations. */
  datatype DupCount = DupCount(max: nat, current: nat)

  class UnorderedDiffPolicy {
    const all: seq<int>
    var loaded: bool
    var subtrahend: map<int, DupCount>
    /** The copies that are still to be dropped in the current generation. */
    ghost var budget: multiset<int>

    /** As of generation `gen`: no count has run ahead of it, and what is left of each is what the budget says. */
    ghost predicate Valid(gen: nat)
      reads this
    {
      if !loaded then subtrahend == map[] && budget == multiset{}
      else
        && (forall v {:trigger multiset(all)[v]} :: v in subtrahend <==> v in all)
        && (forall v {:trigger subtrahend[v]} | v in subtrahend ::
              && subtrahend[v].max == multiset(all)[v] && subtrahend[v].current <= subtrahend[v].max * (gen + 1))
        && (forall v {:trigger budget[v]} :: budget[v] == Left(gen, v))
    }

    /** How many copies of `v` generation `gen` still drops. */
    ghost function Left(gen: nat, v: int): nat
      reads this`subtrahend
    {
      if v !in subtrahend then 0
      else
        var c := subtrahend[v];
        if c.current <= c.max * gen then c.max
        else if c.current <= c.max * (gen + 1) then c.max * (gen + 1) - c.current else 0
    }

    constructor (sub: seq<int>)
      ensures !loaded && Valid(0) && all == sub
    {
      all, loaded, subtrahend, budget := sub, false, map[], multiset{};
    }

    /** `drain`. */
    method Drain()
      modifies this
      ensures loaded && budget == multiset(all) && Valid(0)
    {
      loaded, subtrahend, budget := true, map[], multiset(all);
      var i := 0;
      while i < |all|
        invariant 0 <= i <= |all| && loaded && budget == multiset(all)
        invariant forall v {:trigger v in subtrahend} :: v in subtrahend <==> v in all[..i]
        invariant forall v {:trigger subtrahend[v]} | v in subtrahend :: subtrahend[v] == DupCount(multiset(all[..i])[v], 0)
      {
        var x := all[i];
        assert all[..i + 1] == all[..i] + [x];
        var c := if x in subtrahend then subtrahend[x] else DupCount(0, 0);
        subtrahend := subtrahend[x := c.(max := c.max + 1)];
        i := i + 1;
      }
      assert all[..i] == all;
    }

    /** A new generation may drop every copy anew, wherever the last one was abandoned. */
    ghost method NewGeneration(gen: nat)
      requires Valid(gen)
      modifies this`budget
      ensures Valid(gen + 1) && budget == if loaded then multiset(all) else multiset{}
    {
      if loaded {
        budget := multiset(all);
        forall v
          ensures budget[v] == Left(gen + 1, v)
          ensures v in subtrahend ==> subtrahend[v].current <= subtrahend[v].max * (gen + 2)
        {
          if v in subtrahend {
            NextTurn(subtrahend[v].max, gen);
          } else {
            assert multiset(all)[v] == 0;
          }
        }
      }
    }

    /** `DupCount::deduction`. */
    method Deduct(gen: nat, x: int) returns (keep: bool)
      requires loaded && Valid(gen) && x in subtrahend
      modifies this`subtrahend, this`budget
      ensures Valid(gen) && keep == (x !in old(budget))
      ensures budget == if keep then old(budget) else old(budget) - multiset{x}
    {
      ghost var counts := subtrahend;
      var c := subtrahend[x];
      NextTurn(c.max, gen);
      assert c.max > 0 && budget[x] == Left(gen, x);
      if c.current < c.max * (gen + 1) {
        if c.current < c.max * gen {
          c := c.(current := c.max * gen);
        }
        subtrahend := subtrahend[x := c.(current := c.current + 1)];
        budget := budget - multiset{x};
        forall v
          ensures budget[v] == Left(gen, v)
        {
          assert v != x && v in counts ==> subtrahend[v] == counts[v];
          assert old(budget)[v] == old(Left(gen, v));
        }
        return false;
      }
      return true;
    }

    /** `operator()`: the counts are taken over at the first element of the first generation. */
    method Keep(gen: nat, step: nat, x: int) returns (keep: bool)
      requires Valid(gen)
      modifies this
      ensures Valid(gen) && loaded == (old(loaded) || (step == 0 && gen == 0))
      ensures var before := if step == 0 && gen == 0 then multiset(all) else old(budget);
        (keep <==> x !in before) && budget == if keep then before else before - multiset{x}
    {
      if step == 0 && gen == 0 {
        Drain();
      }
      if x !in subtrahend {
        assert loaded ==> budget[x] == Left(gen, x);
        return true;
      }
      keep := Deduct(gen, x);
    }
  }

  lemma NextTurn(max: nat, gen: nat)
    ensures max * (gen + 1) == max * gen + max
    ensures max * (gen + 2) == max * (gen + 1) + max
  {
  }

  // ----- the sequence -----

  datatype Policy = Ordered(o: OrderedOrderedPolicy) | Unordered(u: UnorderedDiffPolicy)

  class DistinctSequence {
    const policy: Policy
    /** What is left of the source, the current element first. */
    var source: seq<int>
    /** `SequenceState`: how often the sequence was started, and the step since then. */
    var started: nat
    var step: nat

    constructor (policy: Policy)
      ensures this.policy == policy && source == [] && started == 0
    {
      this.policy, source, started, step := policy, [], 0, 0;
    }

    ghost function PolicyObject(): object
    {
      match policy case Ordered(o) => o case Unordered(u) => u
    }

    ghost function Subtrahend(): seq<int>
    {
      match policy case Ordered(o) => o.all case Unordered(u) => u.all
    }

    ghost predicate Valid()
      reads this, PolicyObject()
    {
      match policy
      case Ordered(o) => o.Valid() && Sorted(source)
      case Unordered(u) => u.Valid(if started == 0 then 0 else started - 1) && (started == 0 ==> !u.loaded)
    }

    /** The copies still to be dropped from what follows the current element. */
    ghost function Budget(): multiset<int>
      reads PolicyObject()
    {
      match policy case Ordered(o) => multiset(o.subtrahend) case Unordered(u) => u.budget
    }

    /** The copies to be dropped from the current element on, before it has been looked at. */
    ghost function Before(): multiset<int>
      reads this, PolicyObject()
    {
      if step == 0 && (policy.Ordered? || started == 1) then multiset(Subtrahend()) else Budget()
    }

    /** What the sequence yields from now on. */
    ghost function Remaining(): seq<int>
      reads this, PolicyObject()
    {
      if source == [] then [] else [source[0]] + Dropped(source[1..], Budget())
    }

    predicate InRange()
      reads this
    {
      source != []
    }

    /** `distinct_result`. */
    method DistinctResult() returns (keep: bool)
      requires Valid() && started > 0 && InRange()
      modifies PolicyObject()
      ensures Valid() && (keep <==> source[0] !in old(Before()))
      ensures forall y | y in source ::
        Budget()[y] == old(Before())[y] - if !keep && y == source[0] then 1 else 0
      ensures policy.Unordered? ==> policy.u.loaded == (old(policy.u.loaded) || (step == 0 && started == 1))
    {
      hide OrderedOrderedPolicy.Valid, UnorderedDiffPolicy.Valid, UnorderedDiffPolicy.Left, Sorted;
      var x := source[0];
      match policy {
        case Ordered(o) =>
          SortedTail(source);
          keep := o.Keep(step, x);
        case Unordered(u) =>
          keep := u.Keep(started - 1, step, x);
      }
    }

    /** `seek`. */
    method Seek()
      requires Valid() && started > 0
      modifies this`source, this`step, PolicyObject()
      ensures Valid() && Remaining() == old(Dropped(source, Before()))
      ensures policy.Unordered? ==>
        policy.u.loaded == (old(policy.u.loaded) || (old(step) == 0 && started == 1 && old(source) != []))
    {
      hide OrderedOrderedPolicy.Valid, UnorderedDiffPolicy.Valid, Dropped, Sorted;
      while InRange()
        invariant Valid() && Dropped(source, Before()) == old(Dropped(source, Before()))
        invariant policy.Unordered? ==>
          (policy.u.loaded == (old(policy.u.loaded)
            || (old(step) == 0 && started == 1 && old(source) != [] && (step > 0 || source != old(source)))))
        invariant if source == old(source) then step == old(step) else step > 0
        decreases |source|
      {
        ghost var b := Before();
        DroppedFirst(source, b);
        var keep := DistinctResult();
        DroppedDepends(source[1..], Budget(), if keep then b else b - multiset{source[0]});
        if keep {
          return;
        }
        SortedStays(source);
        source, step := source[1..], step + 1;
      }
      DroppedNothing();
    }

    /** `start` over a source: from then on the sequence yields the difference, in every generation. The one exception is
        a counting policy whose first generation had an empty source: it never takes the counts over. */
    method Start(src: seq<int>)
      requires Valid() && (policy.Ordered? ==> Sorted(src))
      modifies this, PolicyObject()
      ensures Valid() && started == old(started) + 1
      ensures Remaining() ==
        if policy.Ordered? || old(started) == 0 || old(policy.u.loaded) then Dropped(src, multiset(Subtrahend())) else src
      ensures policy.Unordered? ==> policy.u.loaded == (old(policy.u.loaded) || (old(started) == 0 && src != []))
    {
      if policy.Unordered? && started > 0 {
        policy.u.NewGeneration(started - 1);
      }
      source, started, step := src, started + 1, 0;
      Seek();
      NothingDropped(src);
    }

    /** `next`. */
    method Next()
      requires Valid() && started > 0 && InRange()
      modifies this`source, this`step, PolicyObject()
      ensures Valid() && Remaining() == old(Remaining()[1..])
      ensures policy.Unordered? ==> policy.u.loaded == old(policy.u.loaded)
    {
      if policy.Ordered? {
        SortedTail(source);
      }
      assert Remaining()[1..] == Dropped(source[1..], Budget());
      source, step := source[1..], step + 1;
      Seek();
    }
  }

  lemma {:induction false} NothingDropped(src: seq<int>)
    ensures Dropped(src, multiset{}) == src
  {
    if src != [] {
      NothingDropped(src[1..]);
    }
  }

  /** An empty first pass, and then a pass over [1] with the subtrahend [1]: nothing is dropped. */
  method EmptyFirstPass() returns (second: seq<int>)
    ensures second == [1] && Dropped([1], multiset{1}) == []
  {
    hide UnorderedDiffPolicy.Valid, OrderedOrderedPolicy.Valid;
    var counting := new UnorderedDiffPolicy([1]);
    var difference := new DistinctSequence(Unordered(counting));
    difference.Start([]);
    difference.Start([1]);
    second := [];
    while difference.InRange()
      invariant fresh(difference) && fresh(difference.PolicyObject()) && difference.Valid() && difference.started > 0
      invariant second + difference.Remaining() == [1]
      decreases |difference.Remaining()|
    {
      second := second + [difference.source[0]];
      difference.Next();
    }
  }
}
