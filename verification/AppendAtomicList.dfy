/** Lock-free append, as a state machine over its atomic steps: many threads append while others traverse. */
module AppendAtomicLists {
  import opened Common

  type Addr = nat
  type Tid = nat

  /** An atomic link: the one in the list head, or the one in a node. */
  datatype Link = Head | After(node: Addr)

  /** Where a thread is inside `append`. */
  datatype Pc =
    | Idle
    | Allocated(node: Addr)            // the node is there, `_last` not yet read
    | Swapping(node: Addr, prev: Link) // `prev` is what `_last` is expected to be
    | Linking(node: Addr, prev: Link)  // `_last` is swapped, the link at `prev` not yet stored

  /** A traversal: the link its iterator is on, and the nodes it has read. */
  datatype Cursor = Cursor(pos: Link, seen: seq<Addr>)

  /** The shared memory, the threads, and the order in which nodes were swapped into `_last`. */
  datatype State = State(next: map<Link, Option<Addr>>, last: Link, threads: map<Tid, Pc>, cursors: map<Tid, Cursor>,
                         order: seq<Addr>)

  datatype Action =
    | Allocate(t: Tid, node: Addr)
    | LoadLast(t: Tid)
    | CompareExchange(t: Tid, spurious: bool)
    | StoreLink(t: Tid)
    | Begin(r: Tid)
    | Read(r: Tid)

  function PcOf(s: State, t: Tid): Pc
  {
    if t in s.threads then s.threads[t] else Idle
  }

  predicate Enabled(s: State, a: Action)
  {
    match a
    case Allocate(t, node) => PcOf(s, t).Idle? && After(node) !in s.next
    case LoadLast(t) => PcOf(s, t).Allocated?
    case CompareExchange(t, _) => PcOf(s, t).Swapping?
    case StoreLink(t) => PcOf(s, t).Linking?
    case Begin(r) => true
    case Read(r) => r in s.cursors
  }

  function Apply(s: State, a: Action): State
    requires Enabled(s, a)
  {
    match a
    case Allocate(t, node) =>
      s.(next := s.next[After(node) := None], threads := s.threads[t := Allocated(node)])
    case LoadLast(t) =>
      s.(threads := s.threads[t := Swapping(s.threads[t].node, s.last)])
    case CompareExchange(t, spurious) =>
      var Swapping(node, prev) := s.threads[t];
      if spurious || s.last != prev then s.(threads := s.threads[t := Swapping(node, s.last)])
      else s.(last := After(node), threads := s.threads[t := Linking(node, prev)], order := s.order + [node])
    case StoreLink(t) =>
      var Linking(node, prev) := s.threads[t];
      s.(next := s.next[prev := Some(node)], threads := s.threads[t := Idle])
    case Begin(r) =>
      s.(cursors := s.cursors[r := Cursor(Head, [])])
    case Read(r) =>
      var Cursor(pos, seen) := s.cursors[r];
      if pos in s.next && s.next[pos].Some?
      then s.(cursors := s.cursors[r := Cursor(After(s.next[pos].value), seen + [s.next[pos].value])])
      else s
  }

  const EMPTY := State(map[Head := None], Head, map[], map[], [])

  // ----- what every step keeps -----

  /** The link through which the `k`th node of an order is reached. */
  function LinkTo(order: seq<Addr>, k: nat): Link
    requires k <= |order|
  {
    if k == 0 then Head else After(order[k - 1])
  }

  /** Thread `t` has swapped in the `k`th node and not yet stored the link to it. */
  ghost predicate Owes(s: State, t: Tid, k: nat)
    requires k < |s.order|
  {
    t in s.threads && s.threads[t] == Linking(s.order[k], LinkTo(s.order, k))
  }

  ghost predicate LinkOk(s: State, k: nat)
    requires k < |s.order|
  {
    var link := LinkTo(s.order, k);
    && link in s.next && After(s.order[k]) in s.next
    && (s.next[link] == Some(s.order[k]) || (s.next[link] == None && exists t :: Owes(s, t, k)))
    && (forall t | Owes(s, t, k) :: s.next[link] == None)
  }

  /** A thread's node is its own until it is swapped in; after that it is the one its link has to refer to. */
  ghost predicate ThreadOk(s: State, t: Tid)
    requires t in s.threads
  {
    match s.threads[t]
    case Idle => true
    case Allocated(node) => Private(s, t, node)
    case Swapping(node, prev) => Private(s, t, node)
    case Linking(node, prev) => exists k | 0 <= k < |s.order| :: s.order[k] == node && LinkTo(s.order, k) == prev
  }

  ghost predicate Private(s: State, t: Tid, node: Addr)
  {
    && node !in s.order && After(node) in s.next && s.next[After(node)] == None
    && forall u {:trigger s.threads[u]} | u in s.threads && u != t && !s.threads[u].Idle? :: s.threads[u].node != node
  }

  ghost predicate CursorOk(s: State, c: Cursor)
  {
    c.seen <= s.order && c.pos == LinkTo(s.order, |c.seen|)
  }

  /** `_last` is the link after the node swapped in last, where nothing is linked yet; every other link leads to the
      next node in order, or exactly one thread is about to store it; traversals read a prefix of the order. */
  ghost predicate Inv(s: State)
  {
    && Distinct(s.order)
    && s.last == LinkTo(s.order, |s.order|) && s.last in s.next && s.next[s.last] == None
    && (forall k {:trigger LinkOk(s, k)} | 0 <= k < |s.order| :: LinkOk(s, k))
    && (forall t {:trigger ThreadOk(s, t)} | t in s.threads :: ThreadOk(s, t))
    && (forall t, u {:trigger s.threads[t], s.threads[u]} | t in s.threads && u in s.threads && t != u ::
          s.threads[t].Linking? && s.threads[u].Linking? ==> s.threads[t].node != s.threads[u].node)
    && (forall r {:trigger s.cursors[r]} | r in s.cursors :: CursorOk(s, s.cursors[r]))
  }

  lemma LinksDiffer(order: seq<Addr>, i: nat, j: nat)
    requires Distinct(order) && i <= |order| && j <= |order| && i != j
    ensures LinkTo(order, i) != LinkTo(order, j)
  {
  }

  lemma StepKeepsInv(s: State, a: Action)
    requires Inv(s) && Enabled(s, a)
    ensures Inv(Apply(s, a))
    ensures s.order <= Apply(s, a).order
  {
    match a
    case Allocate(t, node) => AllocateKeeps(s, t, node);
    case LoadLast(t) => ExpectKeeps(s, t, s.last);
    case CompareExchange(t, spurious) =>
      if spurious || s.last != s.threads[t].prev {
        ExpectKeeps(s, t, s.last);
      } else {
        SwapKeeps(s, t);
      }
    case StoreLink(t) => StoreKeeps(s, t);
    case Begin(r) => CursorMoves(s, r, Cursor(Head, []));
    case Read(r) =>
      var c := s.cursors[r];
      if c.pos in s.next && s.next[c.pos].Some? {
        var k := |c.seen|;
        assert LinkOk(s, k);
        CursorMoves(s, r, Cursor(After(s.order[k]), c.seen + [s.order[k]]));
      }
  }

  lemma CursorMoves(s: State, r: Tid, c: Cursor)
    requires Inv(s) && CursorOk(s, c)
    ensures Inv(s.(cursors := s.cursors[r := c]))
  {
    var s' := s.(cursors := s.cursors[r := c]);
    SameListInv(s, s');
  }

  /** Cursors and threads that were not touched. */
  lemma SameListInv(s: State, s': State)
    requires Inv(s) && s' == s.(cursors := s'.cursors)
    requires forall r | r in s'.cursors :: CursorOk(s', s'.cursors[r])
    ensures Inv(s')
  {
    forall k | 0 <= k < |s'.order|
      ensures LinkOk(s', k)
    {
      assert LinkOk(s, k);
      forall t
        ensures Owes(s', t, k) <==> Owes(s, t, k)
      {
      }
    }
    forall t | t in s'.threads
      ensures ThreadOk(s', t)
    {
      assert ThreadOk(s, t);
    }
  }

  lemma AllocateKeeps(s: State, t: Tid, node: Addr)
    requires Inv(s) && PcOf(s, t).Idle? && After(node) !in s.next
    ensures Inv(Apply(s, Allocate(t, node)))
  {
    var s' := Apply(s, Allocate(t, node));
    forall k | 0 <= k < |s'.order|
      ensures LinkOk(s', k)
    {
      assert LinkOk(s, k);
      forall u
        ensures Owes(s', u, k) <==> Owes(s, u, k)
      {
      }
    }
    forall u | u in s'.threads
      ensures ThreadOk(s', u)
    {
      if u != t {
        assert ThreadOk(s, u);
      } else {
        NodeIsNew(s, node);
      }
    }
  }

  /** An address that is not in memory is nobody's node. */
  lemma NodeIsNew(s: State, node: Addr)
    requires Inv(s) && After(node) !in s.next
    ensures node !in s.order
    ensures forall u {:trigger s.threads[u]} | u in s.threads && !s.threads[u].Idle? :: s.threads[u].node != node
  {
    forall k | 0 <= k < |s.order|
      ensures s.order[k] != node
    {
      assert LinkOk(s, k);
    }
    forall u | u in s.threads && !s.threads[u].Idle?
      ensures s.threads[u].node != node
    {
      assert ThreadOk(s, u);
    }
  }

  /** Reading `_last`, at first or after a failed exchange. */
  lemma ExpectKeeps(s: State, t: Tid, prev: Link)
    requires Inv(s) && (PcOf(s, t).Allocated? || PcOf(s, t).Swapping?)
    ensures Inv(s.(threads := s.threads[t := Swapping(s.threads[t].node, prev)]))
  {
    var s' := s.(threads := s.threads[t := Swapping(s.threads[t].node, prev)]);
    forall k | 0 <= k < |s'.order|
      ensures LinkOk(s', k)
    {
      assert LinkOk(s, k);
      forall u
        ensures Owes(s', u, k) <==> Owes(s, u, k)
      {
      }
    }
    forall u | u in s'.threads
      ensures ThreadOk(s', u)
    {
      assert ThreadOk(s, u);
    }
  }

  /** The exchange that succeeds: the node joins the order, and the thread owes the link to it. */
  lemma SwapKeeps(s: State, t: Tid)
    requires Inv(s) && PcOf(s, t).Swapping? && s.threads[t].prev == s.last
    ensures Inv(Apply(s, CompareExchange(t, false)))
  {
    var s' := Apply(s, CompareExchange(t, false));
    var node, n := s.threads[t].node, |s.order|;
    assert ThreadOk(s, t);
    forall k | 0 <= k < |s'.order|
      ensures LinkOk(s', k)
    {
      if k < n {
        assert LinkOk(s, k);
        forall u
          ensures Owes(s', u, k) <==> Owes(s, u, k)
        {
          assert s.order[k] != node;
        }
        assert LinkTo(s'.order, k) == LinkTo(s.order, k);
      } else {
        assert Owes(s', t, n);
      }
    }
    forall u | u in s'.threads
      ensures ThreadOk(s', u)
    {
      assert ThreadOk(s, u);
      if u != t && s.threads[u].Linking? {
        var Linking(other, prev) := s.threads[u];
        var k: nat :| k < |s.order| && s.order[k] == other && LinkTo(s.order, k) == prev;
        assert s'.order[k] == other && LinkTo(s'.order, k) == prev;
      }
      if u == t {
        assert s'.order[n] == node && LinkTo(s'.order, n) == s.last;
      }
    }
  }

  /** Storing the link that was owed. */
  lemma StoreKeeps(s: State, t: Tid)
    requires Inv(s) && PcOf(s, t).Linking?
    ensures Inv(Apply(s, StoreLink(t)))
  {
    var s' := Apply(s, StoreLink(t));
    var Linking(node, prev) := s.threads[t];
    assert ThreadOk(s, t);
    var k: nat :| k < |s.order| && s.order[k] == node && LinkTo(s.order, k) == prev;
    assert LinkOk(s, k) && Owes(s, t, k);
    LinksDiffer(s.order, k, |s.order|);
    forall j | 0 <= j < |s'.order|
      ensures LinkOk(s', j)
    {
      assert LinkOk(s, j);
      if j != k {
        LinksDiffer(s.order, j, k);
        forall u
          ensures Owes(s', u, j) <==> Owes(s, u, j)
        {
        }
      }
    }
    forall u | u in s'.threads
      ensures ThreadOk(s', u)
    {
      assert ThreadOk(s, u);
    }
  }

  // ----- whole runs -----

  ghost predicate IsStep(s: State, s': State)
  {
    exists a :: Enabled(s, a) && s' == Apply(s, a)
  }

  /** An interleaving of any threads' steps, from the empty list. */
  ghost predicate IsRun(run: seq<State>)
  {
    run != [] && run[0] == EMPTY && forall i {:trigger run[i]} | 0 < i < |run| :: IsStep(run[i - 1], run[i])
  }

  lemma {:induction false} RunKeepsInv(run: seq<State>, i: nat)
    requires IsRun(run) && i < |run|
    ensures Inv(run[i])
    decreases i
  {
    if i > 0 {
      RunKeepsInv(run, i - 1);
      assert IsStep(run[i - 1], run[i]);
      var a :| Enabled(run[i - 1], a) && run[i] == Apply(run[i - 1], a);
      StepKeepsInv(run[i - 1], a);
    }
  }

  /** The order only grows, at its end. */
  lemma {:induction false} OrderGrows(run: seq<State>, i: nat, j: nat)
    requires IsRun(run) && i <= j < |run|
    ensures run[i].order <= run[j].order
    decreases j - i
  {
    if i < j {
      OrderGrows(run, i, j - 1);
      RunKeepsInv(run, j - 1);
      assert IsStep(run[j - 1], run[j]);
      var a :| Enabled(run[j - 1], a) && run[j] == Apply(run[j - 1], a);
      StepKeepsInv(run[j - 1], a);
    }
  }

  /** Whatever a traversal has read at some point is the beginning of the swap order, then and ever after. */
  lemma TraversalReadsPrefix(run: seq<State>, i: nat, j: nat, r: Tid)
    requires IsRun(run) && i <= j < |run| && r in run[i].cursors
    ensures run[i].cursors[r].seen <= run[j].order
  {
    RunKeepsInv(run, i);
    OrderGrows(run, i, j);
  }

  /** A link on the way to a node in order is missing exactly while one thread is between its exchange and its store,
      and that thread is the only one. */
  lemma MissingLinkIsOwed(run: seq<State>, i: nat, k: nat)
    requires IsRun(run) && i < |run| && k < |run[i].order|
    ensures LinkTo(run[i].order, k) in run[i].next
    ensures run[i].next[LinkTo(run[i].order, k)] == None <==> exists t :: Owes(run[i], t, k)
    ensures run[i].next[LinkTo(run[i].order, k)] != None ==> run[i].next[LinkTo(run[i].order, k)] == Some(run[i].order[k])
    ensures forall t, u | Owes(run[i], t, k) && Owes(run[i], u, k) :: t == u
  {
    RunKeepsInv(run, i);
    assert LinkOk(run[i], k);
  }

  // ----- when all appends are done -----

  predicate Quiescent(s: State)
  {
    forall t | t in s.threads :: s.threads[t].Idle?
  }

  /** Following the links from `link`, for at most `fuel` nodes. */
  function Follow(s: State, link: Link, fuel: nat): seq<Addr>
    decreases fuel
  {
    if fuel == 0 || link !in s.next || s.next[link].None? then []
    else [s.next[link].value] + Follow(s, After(s.next[link].value), fuel - 1)
  }

  lemma {:induction false} FollowsOrder(s: State, k: nat, fuel: nat)
    requires Inv(s) && k <= |s.order| <= k + fuel
    requires forall j {:trigger LinkOk(s, j)} | k <= j < |s.order| :: LinkOk(s, j) && s.next[LinkTo(s.order, j)] == Some(s.order[j])
    ensures Follow(s, LinkTo(s.order, k), fuel) == s.order[k..]
    decreases fuel
  {
    if k < |s.order| {
      assert LinkOk(s, k);
      assert s.next[LinkTo(s.order, k)] == Some(s.order[k]);
      FollowsOrder(s, k + 1, fuel - 1);
      assert s.order[k..] == [s.order[k]] + s.order[k + 1..];
    }
  }

  /** Once no append is under way, the list read from its head is exactly all nodes, in swap order, and the end
      iterator is right behind the last. */
  lemma QuiescentListIsOrder(run: seq<State>, i: nat, fuel: nat)
    requires IsRun(run) && i < |run| && Quiescent(run[i]) && fuel >= |run[i].order|
    ensures Follow(run[i], Head, fuel) == run[i].order
    ensures run[i].last == LinkTo(run[i].order, |run[i].order|)
  {
    var s := run[i];
    RunKeepsInv(run, i);
    forall j | 0 <= j < |s.order|
      ensures LinkOk(s, j) && s.next[LinkTo(s.order, j)] == Some(s.order[j])
    {
      assert LinkOk(s, j);
    }
    FollowsOrder(s, 0, fuel);
  }

  /** Every node allocated in a run is in the order once its append is done: nothing is lost. */
  ghost predicate AllPlaced(s: State)
  {
    forall node {:trigger After(node)} | After(node) in s.next ::
      node in s.order || exists t :: t in s.threads && (s.threads[t] == Allocated(node) || (s.threads[t].Swapping? && s.threads[t].node == node))
  }

  lemma StepKeepsPlaced(s: State, a: Action)
    requires Inv(s) && AllPlaced(s) && Enabled(s, a)
    ensures AllPlaced(Apply(s, a))
  {
    var s' := Apply(s, a);
    forall node | After(node) in s'.next
      ensures node in s'.order
        || exists t :: t in s'.threads && (s'.threads[t] == Allocated(node) || (s'.threads[t].Swapping? && s'.threads[t].node == node))
    {
      if a.Allocate? && node == a.node {
        assert s'.threads[a.t] == Allocated(node);
      } else {
        KnownNode(s, a, node);
        if node !in s.order {
          var t :| t in s.threads && (s.threads[t] == Allocated(node) || (s.threads[t].Swapping? && s.threads[t].node == node));
          assert t in s'.threads;
          if a.CompareExchange? && a.t == t && !(s'.threads[t].Swapping? && s'.threads[t].node == node) {
            assert s'.order[|s.order|] == node;
          }
        } else {
          var k :| 0 <= k < |s.order| && s.order[k] == node;
          StepKeepsInv(s, a);
          assert s'.order[k] == node;
        }
      }
    }
  }

  lemma KnownNode(s: State, a: Action, node: Addr)
    requires Inv(s) && Enabled(s, a) && After(node) in Apply(s, a).next && !(a.Allocate? && a.node == node)
    ensures After(node) in s.next
  {
    if a.StoreLink? {
      assert ThreadOk(s, a.t);
      var Linking(n, prev) := s.threads[a.t];
      var k: nat :| k < |s.order| && s.order[k] == n && LinkTo(s.order, k) == prev;
      assert LinkOk(s, k);
    }
  }

  lemma {:induction false} RunKeepsPlaced(run: seq<State>, i: nat)
    requires IsRun(run) && i < |run|
    ensures AllPlaced(run[i])
    decreases i
  {
    if i > 0 {
      RunKeepsPlaced(run, i - 1);
      RunKeepsInv(run, i - 1);
      assert IsStep(run[i - 1], run[i]);
      var a :| Enabled(run[i - 1], a) && run[i] == Apply(run[i - 1], a);
      StepKeepsPlaced(run[i - 1], a);
    }
  }

  /** Once no append is under way, the list holds every node ever appended, and each once. */
  lemma NothingIsLost(run: seq<State>, i: nat, node: Addr)
    requires IsRun(run) && i < |run| && Quiescent(run[i])
    ensures After(node) in run[i].next <==> node in run[i].order
    ensures Distinct(run[i].order)
  {
    RunKeepsPlaced(run, i);
    RunKeepsInv(run, i);
    if node in run[i].order {
      var k :| 0 <= k < |run[i].order| && run[i].order[k] == node;
      assert LinkOk(run[i], k);
    }
  }

  // ----- progress -----

  /** The step thread `t` takes next in `append`. */
  function NextStep(s: State, t: Tid): Action
    requires !PcOf(s, t).Idle?
  {
    match s.threads[t]
    case Allocated(_) => LoadLast(t)
    case Swapping(_, _) => CompareExchange(t, false)
    case Linking(_, _) => StoreLink(t)
  }

  /** Thread `t` expects `_last` to be something else than it is. */
  predicate Behind(s: State, t: Tid)
  {
    PcOf(s, t).Swapping? && s.threads[t].prev != s.last
  }

  /** How many of its steps a thread is from the end of its append, if nobody gets in between. */
  function StepsLeft(s: State, t: Tid): (n: nat)
    ensures n <= 3
  {
    match PcOf(s, t)
    case Idle => 0
    case Allocated(_) => 3
    case Swapping(_, _) => if Behind(s, t) then 3 else 2
    case Linking(_, _) => 1
  }

  /** Thread `t` does step `a`. */
  predicate IsOwn(a: Action, t: Tid)
  {
    match a
    case Allocate(u, _) => u == t
    case LoadLast(u) => u == t
    case CompareExchange(u, _) => u == t
    case StoreLink(u) => u == t
    case Begin(_) => false
    case Read(_) => false
  }

  /** The step is an exchange that succeeds. */
  predicate Joins(s: State, a: Action)
  {
    a.CompareExchange? && Enabled(s, a) && !a.spurious && !Behind(s, a.t)
  }

  /** The step is an exchange that fails, and not spuriously. */
  predicate Loses(s: State, a: Action, t: Tid)
  {
    a == CompareExchange(t, false) && Behind(s, t)
  }

  /** The order grows by the node of the thread whose exchange succeeds, and by no other step. */
  lemma OnlyJoinsGrow(s: State, a: Action)
    requires Enabled(s, a)
    ensures Apply(s, a).order == if Joins(s, a) then s.order + [s.threads[a.t].node] else s.order
    ensures Apply(s, a).last == if Joins(s, a) then After(s.threads[a.t].node) else s.last
  {
  }

  /** A thread's own step brings it nearer to the end of its append, and the step with which its node joins is one. */
  lemma OwnStepAdvances(s: State, t: Tid)
    requires !PcOf(s, t).Idle?
    ensures var a := NextStep(s, t); var s' := Apply(s, a);
      && Enabled(s, a) && StepsLeft(s', t) == StepsLeft(s, t) - 1
      && (Joins(s, a) <==> PcOf(s, t).Swapping? && PcOf(s', t).Linking?)
      && (!PcOf(s', t).Idle? ==> s'.threads[t].node == s.threads[t].node)
      && (PcOf(s', t).Idle? <==> PcOf(s, t).Linking?)
  {
  }

  /** A step of anybody else sets it back only if it is an exchange that succeeds. */
  lemma OthersKeepSteps(s: State, a: Action, t: Tid)
    requires Enabled(s, a) && !IsOwn(a, t)
    ensures PcOf(Apply(s, a), t) == PcOf(s, t)
    ensures !Joins(s, a) ==> StepsLeft(Apply(s, a), t) == StepsLeft(s, t)
  {
  }

  /** A run with the steps it takes, from any state. */
  ghost predicate IsTrace(run: seq<State>, steps: seq<Action>)
  {
    && |run| == |steps| + 1
    && forall i {:trigger steps[i]} | 0 <= i < |steps| :: Enabled(run[i], steps[i]) && run[i + 1] == Apply(run[i], steps[i])
  }

  lemma TraceFront(run: seq<State>, steps: seq<Action>)
    requires IsTrace(run, steps) && steps != []
    ensures IsTrace(run[..|steps|], steps[..|steps| - 1])
  {
    var m := |steps| - 1;
    forall i | 0 <= i < m
      ensures Enabled(run[..|steps|][i], steps[..m][i]) && run[..|steps|][i + 1] == Apply(run[..|steps|][i], steps[..m][i])
    {
      assert steps[..m][i] == steps[i];
    }
  }

  function OwnSteps(steps: seq<Action>, t: Tid): nat
  {
    if steps == [] then 0
    else OwnSteps(steps[..|steps| - 1], t) + if IsOwn(steps[|steps| - 1], t) then 1 else 0
  }

  /** Nobody but `t` joins, and no exchange of `t` fails spuriously. */
  ghost predicate Undisturbed(run: seq<State>, steps: seq<Action>, t: Tid)
    requires |run| == |steps| + 1
  {
    forall i {:trigger steps[i]} | 0 <= i < |steps| ::
      (!IsOwn(steps[i], t) ==> !Joins(run[i], steps[i])) && steps[i] != CompareExchange(t, true)
  }

  /** The only enabled step of a thread inside `append`, spurious failures aside, is the next one. */
  lemma OwnIsNext(s: State, a: Action, t: Tid)
    requires Enabled(s, a) && IsOwn(a, t) && !PcOf(s, t).Idle? && a != CompareExchange(t, true)
    ensures a == NextStep(s, t)
  {
  }

  /** An append that is not disturbed is done after at most three steps of its own: read `_last` or fail once, exchange,
      store. Whatever the others do meanwhile, the order has then gained its node and nothing else. */
  lemma {:induction false} AppendEnds(run: seq<State>, steps: seq<Action>, t: Tid)
    requires IsTrace(run, steps) && Undisturbed(run, steps, t)
    requires (PcOf(run[0], t).Allocated? || PcOf(run[0], t).Swapping?) && OwnSteps(steps, t) <= StepsLeft(run[0], t)
    ensures var s, s' := run[0], run[|steps|];
      && StepsLeft(s', t) == StepsLeft(s, t) - OwnSteps(steps, t)
      && (PcOf(s', t).Idle? <==> OwnSteps(steps, t) == StepsLeft(s, t))
      && (!PcOf(s', t).Idle? ==> s'.threads[t].node == s.threads[t].node)
      && s'.order == if PcOf(s', t).Idle? || PcOf(s', t).Linking? then s.order + [s.threads[t].node] else s.order
    decreases |steps|
  {
    if steps != [] {
      var m := |steps| - 1;
      TraceFront(run, steps);
      forall i | 0 <= i < m
        ensures (!IsOwn(steps[..m][i], t) ==> !Joins(run[..|steps|][i], steps[..m][i])) && steps[..m][i] != CompareExchange(t, true)
      {
        assert steps[..m][i] == steps[i];
      }
      AppendEnds(run[..|steps|], steps[..m], t);
      var s, a := run[m], steps[m];
      OnlyJoinsGrow(s, a);
      if IsOwn(a, t) {
        OwnIsNext(s, a, t);
        OwnStepAdvances(s, t);
      } else {
        OthersKeepSteps(s, a, t);
      }
    }
  }

  /** It can always go on by itself: after three steps at most it is done. */
  lemma AppendAlone(s: State, t: Tid) returns (run: seq<State>, steps: seq<Action>)
    requires Inv(s) && (PcOf(s, t).Allocated? || PcOf(s, t).Swapping?)
    ensures IsTrace(run, steps) && run[0] == s && |steps| == StepsLeft(s, t)
    ensures var s' := run[|steps|]; PcOf(s', t).Idle? && s'.order == s.order + [s.threads[t].node] && Inv(s')
  {
    run, steps := [s], [];
    while !PcOf(run[|steps|], t).Idle?
      invariant IsTrace(run, steps) && run[0] == s && Inv(run[|steps|])
      invariant StepsLeft(run[|steps|], t) == StepsLeft(s, t) - |steps|
      invariant var s' := run[|steps|];
        && (!PcOf(s', t).Idle? ==> s'.threads[t].node == s.threads[t].node)
        && s'.order == if PcOf(s', t).Idle? || PcOf(s', t).Linking? then s.order + [s.threads[t].node] else s.order
      decreases StepsLeft(run[|steps|], t)
    {
      var s', a := run[|steps|], NextStep(run[|steps|], t);
      OwnStepAdvances(s', t);
      OnlyJoinsGrow(s', a);
      StepKeepsInv(s', a);
      run, steps := run + [Apply(s', a)], steps + [a];
    }
  }

  /** How many exchanges of thread `t` fail, spurious failures aside. */
  ghost function Failures(run: seq<State>, steps: seq<Action>, t: Tid): nat
    requires |run| == |steps| + 1
  {
    if steps == [] then 0
    else
      var m := |steps| - 1;
      Failures(run[..|steps|], steps[..m], t) + if Loses(run[m], steps[m], t) then 1 else 0
  }

  /** Each failure is paid for by a node of another thread that has joined since `t` last read `_last`; so whoever fails,
      the list as a whole moves on. */
  lemma {:induction false} FailuresArePaid(run: seq<State>, steps: seq<Action>, t: Tid)
    requires IsTrace(run, steps)
    ensures Failures(run, steps, t) + (if Behind(run[|steps|], t) then 1 else 0)
         <= |run[|steps|].order| - |run[0].order| + (if Behind(run[0], t) then 1 else 0)
    decreases |steps|
  {
    if steps != [] {
      TraceFront(run, steps);
      FailuresArePaid(run[..|steps|], steps[..|steps| - 1], t);
      FailureStep(run[|steps| - 1], steps[|steps| - 1], t);
    }
  }

  lemma FailureStep(s: State, a: Action, t: Tid)
    requires Enabled(s, a)
    ensures (if Loses(s, a, t) then 1 else 0) + (if Behind(Apply(s, a), t) then 1 else 0)
         <= |Apply(s, a).order| - |s.order| + (if Behind(s, t) then 1 else 0)
  {
    OnlyJoinsGrow(s, a);
  }

  /** Thread `t` reads `_last`: at first, or in an exchange that fails. */
  predicate ReadsLast(s: State, a: Action, t: Tid)
  {
    a == LoadLast(t) || (a.CompareExchange? && a.t == t && (a.spurious || Behind(s, t)))
  }

  /** An exchange that is not spurious fails only if the order has grown since the thread last read `_last`, and then by
      nodes of others. */
  lemma {:induction false} FailsOnlyIfOvertaken(run: seq<State>, steps: seq<Action>, t: Tid)
    requires IsTrace(run, steps) && steps != [] && ReadsLast(run[0], steps[0], t)
    requires forall i {:trigger steps[i]} | 0 < i < |steps| :: !IsOwn(steps[i], t)
    ensures var s' := run[|steps|];
      && PcOf(s', t).Swapping? && s'.threads[t].prev == run[0].last
      && run[0].order <= s'.order && (Behind(s', t) ==> |run[0].order| < |s'.order|)
    decreases |steps|
  {
    var m := |steps| - 1;
    OnlyJoinsGrow(run[m], steps[m]);
    if m > 0 {
      TraceFront(run, steps);
      forall i | 0 < i < m
        ensures !IsOwn(steps[..m][i], t)
      {
        assert steps[..m][i] == steps[i];
      }
      FailsOnlyIfOvertaken(run[..|steps|], steps[..m], t);
      OthersKeepSteps(run[m], steps[m], t);
    }
  }

  /** A traversal that is not at a missing link goes on by one node. */
  lemma ReadAdvances(s: State, r: Tid)
    requires Inv(s) && r in s.cursors && |s.cursors[r].seen| < |s.order|
    requires !exists t :: Owes(s, t, |s.cursors[r].seen|)
    ensures Apply(s, Read(r)).cursors[r].seen == s.order[..|s.cursors[r].seen| + 1]
    ensures Apply(s, Read(r)) == s.(cursors := Apply(s, Read(r)).cursors)
  {
    var k := |s.cursors[r].seen|;
    assert CursorOk(s, s.cursors[r]) && LinkOk(s, k);
    assert s.order[..k + 1] == s.order[..k] + [s.order[k]];
  }

  /** One step more before a run. */
  lemma TraceFrom(s: State, a: Action, run: seq<State>, steps: seq<Action>)
    requires IsTrace(run, steps) && Enabled(s, a) && run[0] == Apply(s, a)
    ensures IsTrace([s] + run, [a] + steps)
    ensures ([s] + run)[|steps| + 1] == run[|steps|]
  {
    hide Apply, Enabled;
    var run', steps' := [s] + run, [a] + steps;
    forall i {:trigger steps'[i]} | 0 <= i < |steps'|
      ensures Enabled(run'[i], steps'[i]) && run'[i + 1] == Apply(run'[i], steps'[i])
    {
      if i > 0 {
        assert Enabled(run[i - 1], steps[i - 1]) && run[i] == Apply(run[i - 1], steps[i - 1]);
      }
    }
  }

  /** Once no append is under way, a traversal reads the whole list, one node in each step. */
  lemma {:induction false} TraversalEnds(s: State, r: Tid) returns (run: seq<State>, steps: seq<Action>)
    requires Inv(s) && Quiescent(s) && r in s.cursors
    ensures IsTrace(run, steps) && run[0] == s && |steps| == |s.order| - |s.cursors[r].seen|
    ensures r in run[|steps|].cursors && run[|steps|].cursors[r].seen == s.order && run[|steps|].cursors[r].pos == s.last
    decreases |s.order| - |s.cursors[r].seen|
  {
    assert CursorOk(s, s.cursors[r]);
    if |s.cursors[r].seen| == |s.order| {
      run, steps := [s], [];
    } else {
      ReadAdvances(s, r);
      var s' := Apply(s, Read(r));
      assert Quiescent(s');
      StepKeepsInv(s, Read(r));
      var rest, more := TraversalEnds(s', r);
      TraceFrom(s, Read(r), rest, more);
      run, steps := [s] + rest, [Read(r)] + more;
    }
  }

  // ----- what `end()` does not promise -----

  /** An iterator that differs from `end()` may still be on a link that is not stored: dereferencing it is safe exactly
      if no append is between its exchange and its store there. */
  lemma DereferenceIsSafe(run: seq<State>, i: nat, r: Tid)
    requires IsRun(run) && i < |run| && r in run[i].cursors && run[i].cursors[r].pos != run[i].last
    ensures var s := run[i]; var k := |s.cursors[r].seen|;
      && k < |s.order| && s.cursors[r].pos in s.next
      && (s.next[s.cursors[r].pos].Some? <==> !exists t :: Owes(s, t, k))
  {
    RunKeepsInv(run, i);
    StoredOrOwed(run[i], r);
  }

  lemma StoredOrOwed(s: State, r: Tid)
    requires Inv(s) && r in s.cursors && s.cursors[r].pos != s.last
    ensures var k := |s.cursors[r].seen|;
      && k < |s.order| && s.cursors[r].pos in s.next
      && (s.next[s.cursors[r].pos].Some? <==> !exists t :: Owes(s, t, k))
  {
    assert CursorOk(s, s.cursors[r]);
    assert LinkOk(s, |s.cursors[r].seen|);
  }

  /** It does happen: one append stopped between its two steps, and a traversal that has just begun. */
  lemma EndIsNotEnough() returns (run: seq<State>)
    ensures IsRun(run)
    ensures var s := run[|run| - 1];
      0 in s.cursors && s.cursors[0].pos != s.last && s.cursors[0].pos in s.next && s.next[s.cursors[0].pos] == None
  {
    var s1 := Apply(EMPTY, Allocate(1, 7));
    var s2 := Apply(s1, LoadLast(1));
    var s3 := Apply(s2, CompareExchange(1, false));
    var s4 := Apply(s3, Begin(0));
    run := [EMPTY, s1, s2, s3, s4];
    assert IsStep(EMPTY, s1) && IsStep(s1, s2) && IsStep(s2, s3) && IsStep(s3, s4);
  }
}
