/** Walking a hierarchy below its roots without recursion: breadth first with a double-ended list, depth first with a
    stack. A sequence that is being read is modelled by what is left of it, its current element first. */
module HierarchyTraversals {
  datatype Tree<T> = Tree(value: T, children: seq<Tree<T>>)

  // ----- what is to be listed -----

  function Size<T>(f: seq<Tree<T>>): nat
  {
    if f == [] then 0 else 1 + Size(f[0].children) + Size(f[1..])
  }

  /** All children, of each tree in turn: the next level. */
  function Kids<T>(f: seq<Tree<T>>): seq<Tree<T>>
  {
    if f == [] then [] else f[0].children + Kids(f[1..])
  }

  lemma {:induction false} SizeJoin<T>(f: seq<Tree<T>>, g: seq<Tree<T>>)
    ensures Size(f + g) == Size(f) + Size(g)
  {
    if f == [] {
      assert f + g == g;
    } else {
      assert (f + g)[1..] == f[1..] + g;
      SizeJoin(f[1..], g);
    }
  }

  lemma {:induction false} KidsJoin<T>(f: seq<Tree<T>>, g: seq<Tree<T>>)
    ensures Kids(f + g) == Kids(f) + Kids(g)
  {
    if f == [] {
      assert f + g == g;
    } else {
      assert (f + g)[1..] == f[1..] + g;
      KidsJoin(f[1..], g);
    }
  }

  lemma {:induction false} KidsAreFewer<T>(f: seq<Tree<T>>)
    ensures Size(Kids(f)) <= Size(f) && (f != [] ==> Size(Kids(f)) < Size(f))
  {
    if f != [] {
      KidsAreFewer(f[1..]);
      SizeJoin(f[0].children, Kids(f[1..]));
    }
  }

  /** The levels below `f`, one after the other. */
  ghost function Levels<T>(f: seq<Tree<T>>): seq<Tree<T>>
    decreases Size(f)
  {
    if f == [] then []
    else
      KidsAreFewer(f);
      Kids(f) + Levels(Kids(f))
  }

  /** Each tree of `f` with everything below it, parents first. */
  ghost function Preorder<T>(f: seq<Tree<T>>): seq<Tree<T>>
    decreases Size(f)
  {
    if f == [] then [] else [f[0]] + Preorder(f[0].children) + Preorder(f[1..])
  }

  /** Everything below the trees of `f`, tree by tree. */
  ghost function Below<T>(f: seq<Tree<T>>): seq<Tree<T>>
  {
    if f == [] then [] else Preorder(f[0].children) + Below(f[1..])
  }

  // ----- breadth first -----

  /** First in, first out: each tree is followed by its children at the end of the queue. */
  ghost function Queued<T>(q: seq<Tree<T>>): seq<Tree<T>>
    decreases Size(q)
  {
    if q == [] then []
    else
      SizeJoin(q[1..], q[0].children);
      [q[0]] + Queued(q[1..] + q[0].children)
  }

  lemma {:induction false} QueueByLevel<T>(level: seq<Tree<T>>, rest: seq<Tree<T>>)
    ensures Queued(level + rest) == level + Queued(rest + Kids(level))
    decreases |level|
  {
    if level == [] {
      assert level + rest == rest && rest + Kids(level) == rest;
    } else {
      var q := level + rest;
      assert q[1..] + q[0].children == level[1..] + (rest + q[0].children);
      SizeJoin(q[1..], q[0].children);
      QueueByLevel(level[1..], rest + q[0].children);
      assert rest + level[0].children + Kids(level[1..]) == rest + Kids(level);
    }
  }

  /** A queue lists whole levels: first the one it starts with, then all of the next, and so on. */
  lemma {:induction false} QueueListsLevels<T>(level: seq<Tree<T>>)
    ensures Queued(level) == level + Levels(level)
    decreases Size(level)
  {
    QueueByLevel(level, []);
    assert level + [] == level && [] + Kids(level) == Kids(level);
    if level != [] {
      KidsAreFewer(level);
      QueueListsLevels(Kids(level));
    }
  }

  function Flat<T>(lists: seq<seq<Tree<T>>>): seq<Tree<T>>
  {
    if lists == [] then [] else lists[0] + Flat(lists[1..])
  }

  lemma FlatFirst<T>(lists: seq<seq<Tree<T>>>)
    ensures Flat(lists) == if lists == [] then [] else lists[0] + [] + Flat(lists[1..])
  {
  }

  lemma {:induction false} FlatAppend<T>(lists: seq<seq<Tree<T>>>, list: seq<Tree<T>>)
    ensures Flat(lists + [list]) == Flat(lists) + list
  {
    if lists == [] {
      assert lists + [list] == [list];
    } else {
      assert (lists + [list])[1..] == lists[1..] + [list];
      FlatAppend(lists[1..], list);
    }
  }

  class BreadthFirstSequence<T(!new)> {
    const roots: seq<Tree<T>>
    var origin: seq<Tree<T>>
    var gen1: seq<seq<Tree<T>>>
    var isGen0: bool

    constructor (roots: seq<Tree<T>>)
      ensures this.roots == roots
    {
      this.roots, origin, gen1, isGen0 := roots, roots, [], true;
    }

    /** No list in `gen1` is used up, and while the roots are being read, the front list holds children of the current
        root. */
    ghost predicate Valid()
      reads this
    {
      && (forall i {:trigger gen1[i]} | 0 <= i < |gen1| :: gen1[i] != [])
      && (isGen0 ==> (origin == [] <==> gen1 == []))
    }

    /** The trees in the order in which they will be current: the rest of the front list, the children of the roots not
        read yet, the other lists. */
    ghost function Queue(): seq<Tree<T>>
      reads this
    {
      if gen1 == [] then []
      else gen1[0] + (if isGen0 then Kids(origin[if origin == [] then 0 else 1..]) else []) + Flat(gen1[1..])
    }

    /** What the sequence yields from now on. */
    ghost function Remaining(): seq<Tree<T>>
      reads this
    {
      Queued(Queue())
    }

    predicate InRange()
      reads this
    {
      if isGen0 then origin != [] else gen1 != []
    }

    function Current(): (t: Tree<T>)
      requires Valid() && InRange()
      reads this
      ensures Remaining() != [] && t == Remaining()[0]
    {
      gen1[0][0]
    }

    /** To the first root from the current one on that has children; these come first in `gen1`. */
    method NextProductiveRoot() returns (found: bool)
      modifies this`origin, this`gen1
      ensures found ==> origin != [] && origin[0].children != [] && gen1 == [origin[0].children] + old(gen1)
      ensures found ==> origin[0].children + Kids(origin[1..]) == Kids(old(origin))
      ensures !found ==> origin == [] && gen1 == old(gen1) && Kids(old(origin)) == []
    {
      while origin != []
        invariant Kids(origin) == Kids(old(origin)) && gen1 == old(gen1)
        decreases |origin|
      {
        if origin[0].children != [] {
          gen1 := [origin[0].children] + gen1;
          return true;
        }
        origin := origin[1..];
      }
      return false;
    }

    /** `start`: the levels below the roots. */
    method Start()
      modifies this
      ensures Valid() && Remaining() == Levels(roots) && (InRange() <==> Remaining() != [])
    {
      isGen0, gen1, origin := true, [], roots;
      var found := NextProductiveRoot();
      QueueListsLevels(Kids(roots));
      if found {
        assert Queue() == Kids(roots);
      }
    }

    /** The children of the current element go to the end of `gen1`, and the element itself is passed. */
    method PassCurrent()
      requires Valid() && InRange()
      modifies this`gen1
      ensures gen1 != [] && (forall i {:trigger gen1[i]} | 1 <= i < |gen1| :: gen1[i] != [])
      ensures old(Queue()) != [] && Queue() == old(Queue()[1..] + Queue()[0].children)
    {
      hide Kids, Flat, Queued;
      var top := gen1[0][0];
      PassFront(gen1, if isGen0 then Kids(origin[if origin == [] then 0 else 1..]) else []);
      if top.children != [] {
        gen1 := gen1 + [top.children];
      }
      gen1 := [gen1[0][1..]] + gen1[1..];
    }

    /** A list that is used up goes; while the roots are being read, the children of the next root take its place. */
    method PopFront() returns (found: bool)
      requires gen1 != [] && gen1[0] == [] && (isGen0 ==> origin != [])
      requires forall i {:trigger gen1[i]} | 1 <= i < |gen1| :: gen1[i] != []
      modifies this
      ensures forall i {:trigger gen1[i]} | 0 <= i < |gen1| :: gen1[i] != []
      ensures !found ==> |gen1| < old(|gen1|)
      ensures isGen0 == found && (found ==> origin != [] && gen1 != []) && Queue() == old(Queue())
    {
      hide Kids, Flat;
      gen1 := gen1[1..];
      found := false;
      ghost var lists := gen1;
      FlatFirst(lists);
      if isGen0 {
        assert old(Queue()) == Kids(origin[1..]) + Flat(lists);
        origin := origin[1..];
        found := NextProductiveRoot();
        if found {
          assert gen1[1..] == lists;
          return;
        }
        isGen0 := false;
      }
    }

    /** `next`. */
    method Next()
      requires Valid() && InRange()
      modifies this
      ensures Valid() && Remaining() == old(Remaining()[1..]) && (InRange() <==> Remaining() != [])
    {
      hide Kids, Queued;
      QueuedTail(Queue());
      PassCurrent();
      ghost var q := Queue();
      QueuedTail(q);
      while gen1 != []
        invariant forall i {:trigger gen1[i]} | 1 <= i < |gen1| :: gen1[i] != []
        invariant isGen0 ==> origin != [] && gen1 != []
        invariant Queue() == q
        decreases |gen1|
      {
        if gen1[0] != [] {
          return;
        }
        var found := PopFront();
        if found {
          return;
        }
      }
    }
  }

  lemma QueuedTail<T>(q: seq<Tree<T>>)
    ensures q == [] <==> Queued(q) == []
    ensures q != [] ==> Queued(q)[0] == q[0] && Queued(q)[1..] == Queued(q[1..] + q[0].children)
  {
  }

  /** Passing the first tree of the first list, after putting its children behind the last list. */
  lemma PassFront<T>(lists: seq<seq<Tree<T>>>, mid: seq<Tree<T>>)
    requires lists != [] && lists[0] != []
    ensures var t := lists[0][0];
      var more := if t.children == [] then lists else lists + [t.children];
      var q := lists[0] + mid + Flat(lists[1..]);
      q[0] == t && [more[0][1..]] + more[1..] != []
      && ([more[0][1..]] + more[1..])[1..] == more[1..]
      && more[0][1..] + mid + Flat(more[1..]) == q[1..] + t.children
  {
    var t := lists[0][0];
    if t.children != [] {
      FlatAppend(lists[1..], t.children);
      assert (lists + [t.children])[1..] == lists[1..] + [t.children];
    }
    assert (lists[0] + mid + Flat(lists[1..]))[1..] == lists[0][1..] + mid + Flat(lists[1..]);
  }

  // ----- depth first -----

  /** What a stack of partly read lists still yields: in the last list the current tree and all that follows; in the
      lists below it only what follows their current tree, whose children are being read. */
  ghost function Stacked<T>(stack: seq<seq<Tree<T>>>): seq<Tree<T>>
    requires forall i | 0 <= i < |stack| :: stack[i] != []
    decreases |stack|
  {
    if stack == [] then []
    else Preorder(stack[|stack| - 1]) + Suspended(stack[..|stack| - 1])
  }

  ghost function Suspended<T>(stack: seq<seq<Tree<T>>>): seq<Tree<T>>
    requires forall i | 0 <= i < |stack| :: stack[i] != []
    decreases |stack|
  {
    if stack == [] then []
    else Preorder(stack[|stack| - 1][1..]) + Suspended(stack[..|stack| - 1])
  }

  class DeepFirstSequence<T(!new)> {
    const roots: seq<Tree<T>>
    var origin: seq<Tree<T>>
    var gen1: seq<seq<Tree<T>>>

    constructor (roots: seq<Tree<T>>)
      ensures this.roots == roots
    {
      this.roots, origin, gen1 := roots, roots, [];
    }

    ghost predicate Stacking()
      reads this
    {
      forall i {:trigger gen1[i]} | 0 <= i < |gen1| :: gen1[i] != []
    }

    /** The stack is empty only when all roots have been read. */
    ghost predicate Valid()
      reads this
    {
      Stacking() && (origin == [] <==> gen1 == [])
    }

    ghost function Remaining(): seq<Tree<T>>
      requires Valid()
      reads this
    {
      Stacked(gen1) + if origin == [] then [] else Below(origin[1..])
    }

    predicate InRange()
      reads this
    {
      origin != [] || gen1 != []
    }

    function Current(): (t: Tree<T>)
      requires Valid() && InRange()
      reads this
      ensures Remaining() != [] && t == Remaining()[0]
    {
      gen1[|gen1| - 1][0]
    }

    /** `step_in`: the children of the current tree, or of the current root, become the last list, unless there are
        none. */
    method StepIn() returns (ok: bool)
      requires InRange() && Stacking()
      modifies this`gen1
      ensures Stacking()
      ensures var t := if old(gen1) == [] then origin[0] else old(gen1)[|old(gen1)| - 1][0];
        ok == (t.children != []) && gen1 == if ok then old(gen1) + [t.children] else old(gen1)
    {
      var t := if gen1 == [] then origin[0] else gen1[|gen1| - 1][0];
      ok := t.children != [];
      if ok {
        gen1 := gen1 + [t.children];
      }
    }

    /** `step_out`: past the current tree, out of all lists that this uses up, and past the root if the stack is over. */
    method StepOut() returns (ok: bool)
      requires Stacking() && InRange()
      modifies this`gen1, this`origin
      ensures Stacking() && ok == (gen1 != [])
      ensures ok ==> origin == old(origin) && Stacked(gen1) == Suspended(old(gen1))
      ensures !ok ==> Suspended(old(gen1)) == [] && origin == if old(origin) == [] then [] else old(origin)[1..]
    {
      while gen1 != []
        invariant Stacking() && origin == old(origin) && Suspended(gen1) == Suspended(old(gen1))
        decreases |gen1|
      {
        var m := |gen1| - 1;
        var list := gen1[m][1..];
        if list != [] {
          assert (gen1[..m] + [list])[..m] == gen1[..m];
          gen1 := gen1[..m] + [list];
          return true;
        }
        gen1 := gen1[..m];
      }
      if origin != [] {
        origin := origin[1..];
      }
      return false;
    }

    /** `start`: everything below the roots, tree by tree. */
    method Start()
      modifies this
      ensures Valid() && Remaining() == Below(roots) && (InRange() <==> Remaining() != [])
    {
      gen1, origin := [], roots;
      while origin != []
        invariant gen1 == [] && Below(origin) == Below(roots)
        decreases |origin|
      {
        var ok := StepIn();
        if ok {
          return;
        }
        origin := origin[1..];
      }
    }

    /** `next`. */
    method Next()
      requires Valid() && InRange()
      modifies this
      ensures Valid() && Remaining() == old(Remaining()[1..]) && (InRange() <==> Remaining() != [])
    {
      hide Preorder, Below, Stacked, Suspended;
      BelowNothing<T>();
      PassTop(gen1, Below(origin[1..]));
      ghost var rest := Remaining()[1..];
      ghost var stack := gen1;
      ghost var first := true;
      while InRange()
        invariant Stacking()
        invariant first ==> gen1 == stack && origin == old(origin)
        invariant !first ==> gen1 == [] && Below(origin) == rest
        decreases |origin|
      {
        BelowFirst(origin);
        var ok := StepIn();
        if ok {
          StackTop(gen1);
          return;
        }
        ok := StepOut();
        if ok {
          StackTop(gen1);
          return;
        }
        first := false;
      }
    }
  }

  /** Passing the current tree: its children come next, if there are any, and else what the stack has suspended. */
  lemma PassTop<T>(stack: seq<seq<Tree<T>>>, after: seq<Tree<T>>)
    requires stack != [] && forall i | 0 <= i < |stack| :: stack[i] != []
    ensures Stacked(stack) != []
    ensures var t := stack[|stack| - 1][0];
      (Stacked(stack) + after)[1..]
        == (if t.children == [] then Suspended(stack) else Stacked(stack + [t.children])) + after
  {
    hide Preorder, Stacked, Suspended;
    StackTop(stack);
    var t := stack[|stack| - 1][0];
    if t.children != [] {
      StackUnfolds(stack + [t.children]);
      assert (stack + [t.children])[..|stack|] == stack;
    }
    TailJoined(t, Preorder(t.children), Suspended(stack), after);
  }

  lemma TailJoined<T>(t: T, a: seq<T>, b: seq<T>, c: seq<T>)
    ensures ([t] + a + b + c)[1..] == a + b + c
    ensures a == [] ==> a + b == b
  {
  }

  lemma BelowNothing<T>()
    ensures Below<T>([]) == [] && Stacked<T>([]) == [] && Suspended<T>([]) == []
  {
  }

  lemma BelowFirst<T>(f: seq<Tree<T>>)
    requires f != []
    ensures Below(f) == Preorder(f[0].children) + Below(f[1..]) && Preorder<T>([]) == []
  {
  }

  /** The current tree of a stack, what follows it, and what its children would add. */
  lemma StackTop<T>(stack: seq<seq<Tree<T>>>)
    requires stack != [] && forall i | 0 <= i < |stack| :: stack[i] != []
    ensures var t := stack[|stack| - 1][0];
      Stacked(stack) == [t] + Preorder(t.children) + Suspended(stack)
    ensures Stacked(stack) == Preorder(stack[|stack| - 1]) + Suspended(stack[..|stack| - 1])
    ensures Preorder<T>([]) == []
  {
    var top, below := stack[|stack| - 1], Suspended(stack[..|stack| - 1]);
    StackUnfolds(stack);
    PreorderFirst(top);
    hide Preorder, Stacked, Suspended;
    Regroup([top[0]], Preorder(top[0].children), Preorder(top[1..]), below);
  }

  lemma StackUnfolds<T>(stack: seq<seq<Tree<T>>>)
    requires stack != [] && forall i | 0 <= i < |stack| :: stack[i] != []
    ensures Stacked(stack) == Preorder(stack[|stack| - 1]) + Suspended(stack[..|stack| - 1])
    ensures Suspended(stack) == Preorder(stack[|stack| - 1][1..]) + Suspended(stack[..|stack| - 1])
  {
    hide Preorder;
  }

  lemma Regroup<T>(a: seq<T>, b: seq<T>, c: seq<T>, d: seq<T>)
    ensures a + b + c + d == a + b + (c + d)
  {
  }

  lemma PreorderFirst<T>(f: seq<Tree<T>>)
    requires f != []
    ensures Preorder(f) == [f[0]] + Preorder(f[0].children) + Preorder(f[1..]) && Preorder<T>([]) == []
  {
  }
}
