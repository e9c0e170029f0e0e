/** The hand-off of `Minibatch`: background jobs drain a source into a ring of N slots, and each element taken orders
    one more. A state machine over single steps of the consumer and of the job that is at work. */
module Minibatches {
  /** What the consumer is doing: nothing; holding what `current` has read, and whether it read before the element was
      stored; about to order a job after `next`; waiting for the jobs because it has found the ring empty, in `in_range`
      or in `next`; or done, because `next` threw. */
  datatype Consumer<T> = Ready | Seen(x: T, early: bool) | Taken | Waiting(inNext: bool) | Threw

  /** `items` is all that the source will yield and `pos` its position; `r` and `w` are the ring's counters, and
      `pending` says that a job has advanced `w` and not yet stored; `blank` is what a slot holds at first; `jobs` are
      the limits of the unfinished jobs, each waiting for the one before; `future` tells whether `_work` is valid. For
      the record: `taken` is what the consumer got, and `early` the places it read before they were stored. */
  datatype State<T> = State(N: nat, items: seq<T>, blank: T, pos: nat, r: nat, w: nat, pending: bool, ring: seq<T>,
                            jobs: seq<nat>, future: bool, consumer: Consumer<T>, taken: seq<T>, early: set<nat>,
                            answer: bool, overflow: bool)

  datatype Action = JobStep | Look | Advance | Order | LookEmpty(inNext: bool) | Wake

  // ----- the ring -----

  /** The slot of place `k` in a ring of `n`. */
  function Slot(k: nat, n: nat): (i: nat)
    requires n > 0
    ensures i < n
  {
    k % n
  }

  predicate HasElements<T>(s: State<T>)
  {
    s.r < s.w
  }

  /** The first half of `emplace`: the counter moves, unless the ring would be overrun. */
  function Bump<T>(s: State<T>): State<T>
  {
    if s.w - s.r < s.N then s.(w := s.w + 1, pending := true) else s.(overflow := true)
  }

  /** The second half: the element is stored where the counter was; then the loop of `drain` turns. */
  function Store<T>(s: State<T>): State<T>
    requires s.N > 0 && |s.ring| == s.N && s.pos < |s.items| && s.w > 0 && s.jobs != [] && s.jobs[0] > 0
  {
    s.(ring := s.ring[Slot(s.w - 1, s.N) := s.items[s.pos]], pos := s.pos + 1, pending := false,
       jobs := [s.jobs[0] - 1] + s.jobs[1..])
  }

  /** `start`: drains one element at once, before any job is at work, and orders N - 1 more. */
  function Start<T>(items: seq<T>, blank: T, N: nat): State<T>
    requires N >= 2
  {
    var ring := seq(N, i => blank);
    var s := State(N, items, blank, 0, 0, 0, false, ring, [], false, Ready, [], {}, true, false);
    if items == [] then s
    else
      var s1 := s.(pos := 1, w := 1, ring := ring[0 := items[0]]);
      if 1 < |items| then s1.(jobs := [N - 1], future := true) else s1
  }

  predicate Enabled<T>(s: State<T>, a: Action)
  {
    s.N > 0 && |s.ring| == s.N &&
    match a
    case JobStep => s.jobs != [] && (s.pending ==> s.pos < |s.items| && s.w > 0 && s.jobs[0] > 0)
    case Look => (s.consumer.Ready? || s.consumer.Seen?) && HasElements(s)
    case Advance => s.consumer.Seen? && HasElements(s)
    case Order => s.consumer.Taken?
    case LookEmpty(_) => s.consumer.Ready? && !HasElements(s)
    //`_work.get()` returns when all jobs are done
    case Wake => s.consumer.Waiting? && (s.future ==> s.jobs == [])
  }

  function Apply<T>(s: State<T>, a: Action): State<T>
    requires Enabled(s, a)
  {
    match a
    case JobStep =>
      //half a turn of `drain`, or the end of the job
      if s.pending then Store(s)
      else if s.jobs[0] > 0 && s.pos < |s.items| then Bump(s)
      else s.(jobs := s.jobs[1..])
    case Look =>
      //`current`
      s.(consumer := Seen(s.ring[Slot(s.r, s.N)], s.r == s.pos))
    case Advance =>
      //`next`, up to the call of `async_drain`
      s.(taken := s.taken + [s.consumer.x], early := if s.consumer.early then s.early + {s.r} else s.early,
         r := s.r + 1, consumer := Taken)
    case Order =>
      //`async_drain(1)`
      s.(jobs := s.jobs + [1], future := true, consumer := Ready)
    case LookEmpty(inNext) =>
      s.(consumer := Waiting(inNext))
    case Wake =>
      //the answer of `in_range`, or what `next` comes to on an empty ring: it takes nothing, and throws if nothing came
      var more := s.future && HasElements(s);
      if s.consumer.inNext then s.(future := false, consumer := if more then Ready else Threw)
      else s.(future := false, consumer := Ready, answer := more)
  }

  // ----- credits -----

  function Sum(jobs: seq<nat>): nat
  {
    if jobs == [] then 0 else jobs[0] + Sum(jobs[1..])
  }

  lemma {:induction false} SumAdd(jobs: seq<nat>, n: nat)
    ensures Sum(jobs + [n]) == Sum(jobs) + n
  {
    if jobs != [] {
      assert (jobs + [n])[1..] == jobs[1..] + [n];
      SumAdd(jobs[1..], n);
    } else {
      assert (jobs + [n])[1..] == [];
    }
  }

  /** The elements stored and not taken, those that jobs may still drain, and the one about to be ordered. */
  function Credits<T>(s: State<T>): int
  {
    s.pos - s.r + Sum(s.jobs) + if s.consumer.Taken? then 1 else 0
  }

  /** What the slot of place `k` holds until the element is stored: the element of one turn before. */
  function Before<T>(items: seq<T>, blank: T, N: nat, k: nat): T
  {
    if N <= k < N + |items| then items[k - N] else blank
  }

  /** What `current` reads at place `k`, early or not. */
  function Read<T>(s: State<T>, k: nat, early: bool): T
    requires k < |s.items|
  {
    if early then Before(s.items, s.blank, s.N, k) else s.items[k]
  }

  /** The ring holds the last N elements that were stored, and blanks where nothing was. */
  ghost predicate RingOk<T>(s: State<T>)
    requires s.N > 0 && |s.ring| == s.N && s.pos <= |s.items|
  {
    && (forall k {:trigger s.items[k]} | 0 <= k < s.pos && s.pos - s.N <= k :: s.ring[Slot(k, s.N)] == s.items[k])
    && (forall k {:trigger s.ring[k]} | s.pos <= k < s.N :: s.ring[k] == s.blank)
  }

  /** The counter is ahead of the source by the element that is being stored. */
  predicate CountersOk<T>(s: State<T>)
  {
    && s.w == s.pos + (if s.pending then 1 else 0) && s.r <= s.w && s.pos <= |s.items|
    && (s.pending ==> s.pos < |s.items| && s.jobs != [] && s.jobs[0] > 0)
  }

  /** While the source has more, no credit is lost, and there are never more than N. */
  predicate CreditsOk<T>(s: State<T>)
  {
    && Credits(s) <= s.N && (s.pos < |s.items| ==> Credits(s) == s.N)
    && (s.jobs != [] ==> s.future)
  }

  /** What the consumer holds and has taken is, place by place, what was there when it read. */
  ghost predicate TakenOk<T>(s: State<T>)
  {
    && |s.taken| == s.r <= |s.items|
    && (forall k {:trigger s.taken[k]} | 0 <= k < s.r :: s.taken[k] == Read(s, k, k in s.early))
    && (forall k | k in s.early :: k < s.r)
    && (s.consumer.Seen? ==> s.r < s.w && s.r < |s.items| && s.consumer.x == Read(s, s.r, s.consumer.early))
  }

  /** The consumer is told no only when everything has been taken. */
  predicate ToldOk<T>(s: State<T>)
  {
    && (s.consumer.Waiting? && !s.future ==> s.r == s.w)
    && (!s.answer || s.consumer.Threw? ==> s.r == |s.items|)
  }

  ghost predicate Inv<T>(s: State<T>)
  {
    && s.N >= 2 && |s.ring| == s.N && !s.overflow
    && CountersOk(s) && CreditsOk(s) && RingOk(s) && TakenOk(s) && ToldOk(s)
  }

  /** Within one turn of the ring no two counters share a slot. */
  lemma SlotsDiffer(i: nat, j: nat, n: nat)
    requires i < j < i + n
    ensures Slot(i, n) != Slot(j, n)
  {
    var k := j / n - i / n;
    assert j - i == n * k + (j % n - i % n);
    Multiples(n, k);
  }

  lemma Multiples(n: nat, k: int)
    ensures k >= 1 ==> n * k >= n
    ensures k <= 0 ==> n * k <= 0
  {
  }

  /** One turn later it is the same slot. */
  lemma SlotReturns(k: nat, n: nat)
    requires 0 < n <= k
    ensures Slot(k, n) == Slot(k - n, n)
  {
    var d := k / n - (k - n) / n;
    assert n == n * d + (k % n - (k - n) % n);
    Multiples(n, d - 1);
    Multiples(n, 1 - d);
    assert n * (d - 1) == n * d - n;
  }

  /** In the first turn a place is its own slot. */
  lemma SlotOfFirst(k: nat, n: nat)
    requires k < n
    ensures Slot(k, n) == k
  {
  }

  lemma StoreKeepsRing<T>(s: State<T>)
    requires Inv(s) && s.pending
    ensures RingOk(Store(s))
  {
    hide Slot, TakenOk, ToldOk, Credits;
    var s' := Store(s);
    if s.pos < s.N {
      SlotOfFirst(s.pos, s.N);
    }
    forall k | s'.pos <= k < s.N
      ensures s'.ring[k] == s.blank
    {
      assert s.ring[k] == s.blank;
      SlotOfFirst(s.pos, s.N);
    }
    forall k | 0 <= k < s'.pos && s'.pos - s.N <= k
      ensures s'.ring[Slot(k, s.N)] == s.items[k]
    {
      if k < s.pos {
        SlotsDiffer(k, s.pos, s.N);
      }
    }
  }

  /** What `current` reads: the element, or, while that is still being stored, what its slot held before. */
  lemma LookReads<T>(s: State<T>)
    requires Inv(s) && HasElements(s)
    ensures s.r < |s.items| && s.ring[Slot(s.r, s.N)] == Read(s, s.r, s.r == s.pos)
  {
    hide Slot, TakenOk, ToldOk;
    if s.r == s.pos {
      if s.r >= s.N {
        SlotReturns(s.r, s.N);
        assert s.items[s.r - s.N] == s.ring[Slot(s.r - s.N, s.N)];
      } else {
        SlotOfFirst(s.r, s.N);
        assert s.ring[s.r] == s.blank;
      }
    } else {
      assert s.items[s.r] == s.ring[Slot(s.r, s.N)];
    }
  }

  ghost predicate SameSource<T>(s: State<T>, s': State<T>)
  {
    s'.items == s.items && s'.blank == s.blank && s'.N == s.N
  }

  lemma StartHasInv<T>(items: seq<T>, blank: T, N: nat)
    requires N >= 2
    ensures var s := Start(items, blank, N); Inv(s) && s.items == items && s.blank == blank && s.N == N
  {
    hide Slot;
    SlotOfFirst(0, N);
    assert Sum([N - 1]) == N - 1 + Sum([]);
  }

  lemma StepKeepsInv<T>(s: State<T>, a: Action)
    requires Inv(s) && Enabled(s, a)
    ensures Inv(Apply(s, a)) && SameSource(s, Apply(s, a))
  {
    match a
    case JobStep =>
      JobStepKeepsInv(s);
    case Look =>
      hide Slot, CreditsOk, ToldOk;
      LookReads(s);
    case Advance =>
      AdvanceKeepsInv(s);
    case Order =>
      SumAdd(s.jobs, 1);
    case LookEmpty(_) =>
    case Wake =>
  }

  lemma AdvanceKeepsInv<T>(s: State<T>)
    requires Inv(s) && Enabled(s, Advance)
    ensures Inv(Apply(s, Advance))
  {
    hide Slot, Before;
    var s' := Apply(s, Advance);
    forall k | 0 <= k < s'.r
      ensures s'.taken[k] == Read(s', k, k in s'.early)
    {
      if k < s.r {
        assert s.taken[k] == Read(s, k, k in s.early);
      }
    }
  }

  lemma JobStepKeepsInv<T>(s: State<T>)
    requires Inv(s) && Enabled(s, JobStep)
    ensures Inv(Apply(s, JobStep))
  {
    if s.pending {
      StoreKeepsRing(s);
      assert ([s.jobs[0] - 1] + s.jobs[1..])[1..] == s.jobs[1..];
    }
  }

  // ----- whole runs -----

  ghost predicate IsStep<T(!new)>(s: State<T>, s': State<T>)
  {
    exists a :: Enabled(s, a) && s' == Apply(s, a)
  }

  ghost predicate IsRun<T(!new)>(run: seq<State<T>>, items: seq<T>, blank: T, N: nat)
    requires N >= 2
  {
    && run != [] && run[0] == Start(items, blank, N)
    && forall i {:trigger run[i]} | 0 < i < |run| :: IsStep(run[i - 1], run[i])
  }

  lemma {:induction false} RunKeepsInv<T(!new)>(run: seq<State<T>>, items: seq<T>, blank: T, N: nat, i: nat)
    requires N >= 2 && IsRun(run, items, blank, N) && i < |run|
    ensures Inv(run[i]) && run[i].items == items && run[i].blank == blank && run[i].N == N
    decreases i
  {
    hide Inv, Start, Apply, Enabled;
    if i == 0 {
      StartHasInv(items, blank, N);
    } else {
      RunKeepsInv(run, items, blank, N, i - 1);
      assert IsStep(run[i - 1], run[i]);
      var a :| Enabled(run[i - 1], a) && run[i] == Apply(run[i - 1], a);
      StepKeepsInv(run[i - 1], a);
    }
  }

  /** The ring is never overrun, and never holds and orders more than N elements together; the one that is being stored
      counts once. */
  lemma NeverOverflows<T(!new)>(run: seq<State<T>>, items: seq<T>, blank: T, N: nat, i: nat)
    requires N >= 2 && IsRun(run, items, blank, N) && i < |run|
    ensures var s := run[i];
      && !s.overflow && s.w - s.r <= N
      && s.w - s.r + Sum(s.jobs) - (if s.pending then 1 else 0) <= N
  {
    RunKeepsInv(run, items, blank, N, i);
  }

  /** `emplace` advances the counter before it stores. A consumer that looks in between gets what the slot held before:
      that is right exactly if the place is stored already, or the slot happened to hold an equal value. */
  lemma LookIsRight<T(!new)>(run: seq<State<T>>, items: seq<T>, blank: T, N: nat, i: nat)
    requires N >= 2 && IsRun(run, items, blank, N) && i < |run| && Enabled(run[i], Look)
    ensures var s := run[i];
      && s.r < |items|
      && (Apply(s, Look).consumer.x == items[s.r] <==>
            s.r < s.pos || items[s.r] == Before(items, blank, N, s.r))
      && (s.r < s.pos <==> !(s.pending && s.w - s.r == 1))
  {
    RunKeepsInv(run, items, blank, N, i);
    LookReads(run[i]);
  }

  /** What a consumer can see for itself: the element is there when the counters are two apart, and also when no job is
      unfinished, as after an `in_range` that has waited. */
  lemma LookIsSafe<T(!new)>(run: seq<State<T>>, items: seq<T>, blank: T, N: nat, i: nat)
    requires N >= 2 && IsRun(run, items, blank, N) && i < |run| && Enabled(run[i], Look)
    requires run[i].w - run[i].r >= 2 || run[i].jobs == []
    ensures run[i].r < |items| && Apply(run[i], Look).consumer == Seen(items[run[i].r], false)
  {
    RunKeepsInv(run, items, blank, N, i);
    LookReads(run[i]);
  }

  lemma TakenAre<T>(s: State<T>)
    requires TakenOk(s)
    ensures s.taken == s.items[..s.r] <==> forall k | k in s.early :: s.items[k] == Before(s.items, s.blank, s.N, k)
  {
    hide Before;
    forall k | 0 <= k < s.r
      ensures s.taken[k] == if k in s.early then Before(s.items, s.blank, s.N, k) else s.items[k]
    {
      assert s.taken[k] == Read(s, k, k in s.early);
    }
    if s.taken == s.items[..s.r] {
      forall k | k in s.early
        ensures s.items[k] == Before(s.items, s.blank, s.N, k)
      {
        assert s.taken[k] == s.items[..s.r][k];
      }
    }
  }

  /** What has been taken, place by place: the source's element, or, where the consumer looked early, the one a turn
      before. So it is the beginning of the source, in order and with nothing lost or doubled, exactly if at every early
      place these two are equal. */
  lemma TakenInOrder<T(!new)>(run: seq<State<T>>, items: seq<T>, blank: T, N: nat, i: nat)
    requires N >= 2 && IsRun(run, items, blank, N) && i < |run|
    ensures var s := run[i];
      && |s.taken| == s.r <= |items| && (forall k | k in s.early :: k < s.r)
      && (forall k | 0 <= k < s.r :: s.taken[k] == if k in s.early then Before(items, blank, N, k) else items[k])
      && (s.taken == items[..s.r] <==> forall k | k in s.early :: items[k] == Before(items, blank, N, k))
  {
    hide IsRun, RingOk, CountersOk, CreditsOk, ToldOk;
    RunKeepsInv(run, items, blank, N, i);
    TakenAre(run[i]);
  }

  /** A place becomes an early one only when the consumer goes on after a look between the two halves of `emplace`. */
  lemma EarlyMeansPending<T(!new)>(run: seq<State<T>>, items: seq<T>, blank: T, N: nat, i: nat)
    requires N >= 2 && IsRun(run, items, blank, N) && i < |run|
    ensures Enabled(run[i], Look) ==>
      (Apply(run[i], Look).consumer.early <==> run[i].pending && run[i].w - run[i].r == 1)
    ensures Enabled(run[i], Advance) ==>
      Apply(run[i], Advance).early == run[i].early + if run[i].consumer.early then {run[i].r} else {}
  {
    RunKeepsInv(run, items, blank, N, i);
  }

  /** `in_range` answers truly: no only when everything has been taken, and yes only when something is left. On an empty
      ring `next` takes nothing; it throws exactly if everything has been taken. */
  lemma AnswerIsExact<T(!new)>(run: seq<State<T>>, items: seq<T>, blank: T, N: nat, i: nat)
    requires N >= 2 && IsRun(run, items, blank, N) && i < |run|
    ensures HasElements(run[i]) ==> run[i].r < |items|
    ensures Enabled(run[i], Wake) ==>
      var s, s' := run[i], Apply(run[i], Wake);
      && s'.r == s.r && s'.taken == s.taken
      && (if s.consumer.inNext then s'.consumer == (if s.r < |items| then Ready else Threw)
          else s'.answer == (s.r < |items|))
      && (s.r < |items| ==> Enabled(s', Look))
  {
    RunKeepsInv(run, items, blank, N, i);
  }

  /** What the unfinished jobs still have to do. */
  function JobWork<T>(s: State<T>): int
  {
    2 * Sum(s.jobs) + |s.jobs| - if s.pending then 1 else 0
  }

  /** A consumer that waits for the jobs does not wait forever: a job can always go on, and each step leaves less to do. */
  lemma WaitEnds<T>(s: State<T>)
    requires Inv(s) && s.consumer.Waiting? && !Enabled(s, Wake)
    ensures Enabled(s, JobStep) && Apply(s, JobStep).consumer == s.consumer
    ensures 0 <= JobWork(Apply(s, JobStep)) < JobWork(s)
  {
    var s' := Apply(s, JobStep);
    JobStepKeepsInv(s);
    if s.pending {
      assert s'.jobs == [s.jobs[0] - 1] + s.jobs[1..];
    }
  }

  /** How far the consumer is from taking the next element. */
  function Phase<T>(s: State<T>): nat
  {
    match s.consumer
    case Taken => 4
    case Ready => if HasElements(s) then 1 else 3
    case Waiting(_) => 2
    case Seen(_, _) => 0
    case Threw => 5
  }

  /** What to do next to take an element: the consumer's step, or, while it has to wait, the job's. */
  function Useful<T>(s: State<T>): Action
  {
    match s.consumer
    case Taken => Order
    case Ready => if HasElements(s) then Look else LookEmpty(false)
    case Waiting(_) => if Enabled(s, Wake) then Wake else JobStep
    case Seen(_, _) => Advance
    case Threw => Wake
  }

  lemma UsefulHelps<T>(s: State<T>)
    requires Inv(s) && s.r < |s.items| && !s.consumer.Threw?
    ensures Enabled(s, Useful(s)) && var s' := Apply(s, Useful(s));
      && !s'.consumer.Threw? && s'.r <= |s.items| && s'.items == s.items
      && (s'.r > s.r || (s'.r == s.r && Phase(s') < Phase(s))
          || (s'.r == s.r && Phase(s') == Phase(s) && 0 <= JobWork(s') < JobWork(s)))
  {
    if s.consumer.Waiting? && !Enabled(s, Wake) {
      WaitEnds(s);
    }
  }

  /** Nothing gets stuck: unless `next` has thrown, every reachable state leads on to one in which all is taken. */
  lemma {:induction false} AllCanBeTaken<T(!new)>(s: State<T>) returns (run: seq<State<T>>)
    requires Inv(s) && !s.consumer.Threw?
    ensures run != [] && run[0] == s && forall i {:trigger run[i]} | 0 < i < |run| :: IsStep(run[i - 1], run[i])
    ensures var s' := run[|run| - 1]; Inv(s') && s'.items == s.items && s'.r == |s.items| == |s'.taken|
    decreases |s.items| - s.r, Phase(s), if JobWork(s) < 0 then 0 else JobWork(s)
  {
    hide Apply, Enabled, Useful, Phase, JobWork, TakenOk, RingOk, CreditsOk, CountersOk;
    if s.r == |s.items| {
      run := [s];
      TakenAll(s);
    } else {
      InvBounds(s);
      UsefulHelps(s);
      var s' := Apply(s, Useful(s));
      StepKeepsInv(s, Useful(s));
      InvBounds(s');
      var rest := AllCanBeTaken(s');
      assert IsStep(s, s');
      run := [s] + rest;
      forall i | 0 < i < |run|
        ensures IsStep(run[i - 1], run[i])
      {
        assert i > 1 ==> IsStep(rest[i - 2], rest[i - 1]);
      }
    }
  }

  lemma InvBounds<T>(s: State<T>)
    requires Inv(s)
    ensures s.r <= |s.items|
  {
  }

  lemma TakenAll<T>(s: State<T>)
    requires Inv(s)
    ensures |s.taken| == s.r
  {
  }

  /** A run in which the second element taken is the blank of a slot that was never written. */
  lemma CounterBeforeElement<T(!new)>(x: T, y: T, blank: T) returns (run: seq<State<T>>)
    ensures IsRun(run, [x, y], blank, 2)
    ensures run[|run| - 1].taken == [x, blank] && run[|run| - 1].early == {1}
  {
    var s0 := Start([x, y], blank, 2);
    var s1 := Apply(s0, Look);
    var s2 := Apply(s1, Advance);
    var s3 := Apply(s2, Order);
    var s4 := Apply(s3, JobStep);
    var s5 := Apply(s4, Look);
    var s6 := Apply(s5, Advance);
    assert IsStep(s0, s1) && IsStep(s1, s2) && IsStep(s2, s3) && IsStep(s3, s4) && IsStep(s4, s5) && IsStep(s5, s6);
    run := [s0, s1, s2, s3, s4, s5, s6];
  }
}
