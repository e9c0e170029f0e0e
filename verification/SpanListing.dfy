/** What an intersection query lists: the terminals that overlap a boundary, left to right, found by entering only the
    nodes whose hull overlaps it. */
module SpanListing {
  import opened Common
  import opened Zones
  import opened SpanTree

  ghost function Listing(h: Nodes, root: Addr, ts: map<Addr, Span>, g: Family, a: Addr, i: nat, b: Span): seq<Addr>
    requires TreeShape(h, root, ts, g) && a in h && i <= |h[a].slots|
    decreases g.below[a], |h[a].slots| - i
  {
    if i == |h[a].slots| then []
    else
      SlotListing(h, root, ts, g, a, i, b) + Listing(h, root, ts, g, a, i + 1, b)
  }

  ghost function SlotListing(h: Nodes, root: Addr, ts: map<Addr, Span>, g: Family, a: Addr, i: nat, b: Span): seq<Addr>
    requires TreeShape(h, root, ts, g) && a in h && i < |h[a].slots|
    decreases g.below[a], |h[a].slots| - i, 0
  {
    if !Overlapping(b, SlotSpan(h, ts, h[a].slots[i])) then []
    else
      match h[a].slots[i]
      case Term(t) => [t]
      case Sub(c) =>
        ChildBelow(h, root, ts, g, a, i, c);
        Listing(h, root, ts, g, c, 0, b)
  }

  lemma ChildBelow(h: Nodes, root: Addr, ts: map<Addr, Span>, g: Family, a: Addr, i: nat, c: Addr)
    requires TreeShape(h, root, ts, g) && a in h && i < |h[a].slots| && h[a].slots[i] == Sub(c)
    ensures c in h && c != root && g.up[c] == a && g.below[c] < g.below[a] && c in g.below[a]
  {
    assert NodeOk(h, root, ts, g, a) && SlotOk(h, root, ts, g, a, h[a].slots[i]) && NodeOk(h, root, ts, g, c);
  }

  lemma TermHome(h: Nodes, root: Addr, ts: map<Addr, Span>, g: Family, a: Addr, i: nat, t: Addr)
    requires TreeShape(h, root, ts, g) && a in h && i < |h[a].slots| && h[a].slots[i] == Term(t)
    ensures t in ts && g.home[t] == a
  {
    assert NodeOk(h, root, ts, g, a) && SlotOk(h, root, ts, g, a, h[a].slots[i]);
  }

  /** Where a listed terminal sits: in a slot from `i` on, or somewhere below the node in such a slot. */
  ghost predicate Via(h: Nodes, g: Family, a: Addr, i: nat, t: Addr)
    requires a in h
  {
    exists j {:trigger h[a].slots[j]} | i <= j < |h[a].slots| :: InSlot(g, h[a].slots[j], t)
  }

  ghost predicate InSlot(g: Family, s: Slot, t: Addr)
  {
    match s
    case Term(u) => t == u
    case Sub(c) => c in g.below && t in g.home && (g.home[t] == c || g.home[t] in g.below[c])
  }

  lemma {:induction false} ListingSound(h: Nodes, root: Addr, ts: map<Addr, Span>, g: Family, a: Addr, i: nat, b: Span, t: Addr)
    requires TreeShape(h, root, ts, g) && a in h && i <= |h[a].slots|
    requires t in Listing(h, root, ts, g, a, i, b)
    ensures t in ts && Overlapping(b, ts[t]) && (g.home[t] == a || g.home[t] in g.below[a]) && Via(h, g, a, i, t)
    decreases g.below[a], |h[a].slots| - i
  {
    if t in SlotListing(h, root, ts, g, a, i, b) {
      SlotListingSound(h, root, ts, g, a, i, b, t);
    } else {
      ListingSound(h, root, ts, g, a, i + 1, b, t);
    }
  }

  lemma {:induction false} SlotListingSound(h: Nodes, root: Addr, ts: map<Addr, Span>, g: Family, a: Addr, i: nat, b: Span, t: Addr)
    requires TreeShape(h, root, ts, g) && a in h && i < |h[a].slots|
    requires t in SlotListing(h, root, ts, g, a, i, b)
    ensures t in ts && Overlapping(b, ts[t]) && (g.home[t] == a || g.home[t] in g.below[a]) && InSlot(g, h[a].slots[i], t)
    decreases g.below[a], |h[a].slots| - i, 0
  {
    match h[a].slots[i]
    case Term(u) =>
      TermHome(h, root, ts, g, a, i, u);
    case Sub(c) =>
      ChildBelow(h, root, ts, g, a, i, c);
      ListingSound(h, root, ts, g, c, 0, b, t);
  }

  // ----- each terminal once -----

  lemma {:induction false} SiblingsApart(h: Nodes, root: Addr, ts: map<Addr, Span>, g: Family, a: Addr, c: Addr, d: Addr, x: Addr)
    requires TreeShape(h, root, ts, g) && a in h && c in h && d in h && c != d
    requires c != root && d != root && g.up[c] == a && g.up[d] == a && c in g.below[a] && d in g.below[a]
    requires g.below[c] <= g.below[a] && g.below[d] <= g.below[a]
    requires x in h && (x == c || x in g.below[c]) && (x == d || x in g.below[d])
    ensures false
    decreases h.Keys - g.below[x]
  {
    assert NodeOk(h, root, ts, g, a) && NodeOk(h, root, ts, g, c) && NodeOk(h, root, ts, g, d) && NodeOk(h, root, ts, g, x);
    if x != c && x != d {
      var y := g.up[x];
      ParentAbove(h, root, ts, g, x);
      SiblingsApart(h, root, ts, g, a, c, d, y);
    } else {
      assert false;
    }
  }

  lemma ParentAbove(h: Nodes, root: Addr, ts: map<Addr, Span>, g: Family, c: Addr)
    requires TreeShape(h, root, ts, g) && c in h && c != root
    ensures var a := g.up[c];
      a in h && c in g.below[a] && g.below[c] < g.below[a] <= h.Keys && c !in g.below[c]
      && exists i :: 0 <= i < |h[a].slots| && h[a].slots[i] == Sub(c)
  {
    var a := g.up[c];
    var i :| 0 <= i < |h[a].slots| && h[a].slots[i] == Sub(c);
    ChildBelow(h, root, ts, g, a, i, c);
    assert NodeOk(h, root, ts, g, a) && NodeOk(h, root, ts, g, c);
  }

  lemma TwoSlots(h: Nodes, root: Addr, ts: map<Addr, Span>, g: Family, a: Addr, i: nat, j: nat, t: Addr)
    requires TreeShape(h, root, ts, g) && a in h && i < j < |h[a].slots| && t in ts
    requires InSlot(g, h[a].slots[i], t) && InSlot(g, h[a].slots[j], t)
    ensures false
  {
    var s, u := h[a].slots[i], h[a].slots[j];
    assert NodeOk(h, root, ts, g, a) && SlotOk(h, root, ts, g, a, s) && SlotOk(h, root, ts, g, a, u);
    if s.Sub? && u.Sub? {
      ChildBelow(h, root, ts, g, a, i, s.a);
      ChildBelow(h, root, ts, g, a, j, u.a);
      SiblingsApart(h, root, ts, g, a, s.a, u.a, g.home[t]);
    } else {
      assert false;
    }
  }

  lemma {:induction false} ListingOnce(h: Nodes, root: Addr, ts: map<Addr, Span>, g: Family, a: Addr, i: nat, b: Span)
    requires TreeShape(h, root, ts, g) && a in h && i <= |h[a].slots|
    ensures Distinct(Listing(h, root, ts, g, a, i, b))
    decreases g.below[a], |h[a].slots| - i
  {
    hide TreeShape, InSlot, SlotListing, Distinct;
    if i < |h[a].slots| {
      SlotListingOnce(h, root, ts, g, a, i, b);
      ListingOnce(h, root, ts, g, a, i + 1, b);
      SlotsApart(h, root, ts, g, a, i, b);
      DistinctJoin(SlotListing(h, root, ts, g, a, i, b), Listing(h, root, ts, g, a, i + 1, b));
    } else {
      assert Distinct<Addr>([]) by { NoneTwice<Addr>(); }
    }
  }

  lemma NoneTwice<T>()
    ensures Distinct<T>([])
  {
  }

  lemma {:induction false} SlotListingOnce(h: Nodes, root: Addr, ts: map<Addr, Span>, g: Family, a: Addr, i: nat, b: Span)
    requires TreeShape(h, root, ts, g) && a in h && i < |h[a].slots|
    ensures Distinct(SlotListing(h, root, ts, g, a, i, b))
    decreases g.below[a], |h[a].slots| - i, 0
  {
    if h[a].slots[i].Sub? {
      ChildBelow(h, root, ts, g, a, i, h[a].slots[i].a);
      ListingOnce(h, root, ts, g, h[a].slots[i].a, 0, b);
    }
  }

  lemma SlotsApart(h: Nodes, root: Addr, ts: map<Addr, Span>, g: Family, a: Addr, i: nat, b: Span)
    requires TreeShape(h, root, ts, g) && a in h && i < |h[a].slots|
    ensures forall t | t in SlotListing(h, root, ts, g, a, i, b) :: t !in Listing(h, root, ts, g, a, i + 1, b)
  {
    hide TreeShape, InSlot, SlotListing, Listing;
    forall t | t in SlotListing(h, root, ts, g, a, i, b)
      ensures t !in Listing(h, root, ts, g, a, i + 1, b)
    {
      SlotListingSound(h, root, ts, g, a, i, b, t);
      if t in Listing(h, root, ts, g, a, i + 1, b) {
        ListingSound(h, root, ts, g, a, i + 1, b, t);
        var j :| i + 1 <= j < |h[a].slots| && InSlot(g, h[a].slots[j], t);
        TwoSlots(h, root, ts, g, a, i, j, t);
      }
    }
  }

  // ----- every overlapping terminal -----

  lemma {:induction false} ListedAt(h: Nodes, root: Addr, ts: map<Addr, Span>, g: Family, a: Addr, i: nat, j: nat, b: Span, t: Addr)
    requires TreeShape(h, root, ts, g) && a in h && i <= j < |h[a].slots|
    requires t in SlotListing(h, root, ts, g, a, j, b)
    ensures t in Listing(h, root, ts, g, a, i, b)
    decreases j - i
  {
    hide TreeShape, SlotListing;
    if i < j {
      ListedAt(h, root, ts, g, a, i + 1, j, b, t);
    }
  }

  /** A node records a hull that covers each of its slots. */
  lemma HullCovers(h: Nodes, root: Addr, ts: map<Addr, Span>, g: Family, a: Addr, i: nat)
    requires TreeShape(h, root, ts, g) && Full(h, root, ts) && Hulls(h, ts, {}, NO_SPAN) && a in h && i < |h[a].slots|
    ensures Covers(h[a].span, SlotSpan(h, ts, h[a].slots[i])) && SlotSpan(h, ts, h[a].slots[i]).count > 0
  {
    SlotsAreFull(h, root, ts, g, a);
    HullIsFull(SlotSpans(h, ts, h[a].slots));
    assert h[a].span == HullOf(h, ts, a);
    assert SlotSpans(h, ts, h[a].slots)[i] == SlotSpan(h, ts, h[a].slots[i]);
  }

  /** What is listed below a node is listed from the root: every hull on the way up covers it. */
  lemma {:induction false} ListedUp(h: Nodes, root: Addr, ts: map<Addr, Span>, g: Family, c: Addr, b: Span, t: Addr)
    requires TreeShape(h, root, ts, g) && Full(h, root, ts) && Hulls(h, ts, {}, NO_SPAN)
    requires c in h && t in Listing(h, root, ts, g, c, 0, b) && Overlapping(b, h[c].span)
    ensures t in Listing(h, root, ts, g, root, 0, b) && Overlapping(b, h[root].span)
    decreases h.Keys - g.below[c]
  {
    if c != root {
      ParentAbove(h, root, ts, g, c);
      var a := g.up[c];
      var i :| 0 <= i < |h[a].slots| && h[a].slots[i] == Sub(c);
      HullCovers(h, root, ts, g, a, i);
      CoverOverlaps(b, h[a].span, h[c].span);
      ListedAt(h, root, ts, g, a, 0, i, b, t);
      ListedUp(h, root, ts, g, a, b, t);
    }
  }

  /** From the root, exactly the terminals that overlap the boundary are listed, each once. */
  lemma ListingIsExact(h: Nodes, root: Addr, ts: map<Addr, Span>, g: Family, b: Span)
    requires TreeShape(h, root, ts, g) && Full(h, root, ts) && Hulls(h, ts, {}, NO_SPAN)
    ensures Distinct(Listing(h, root, ts, g, root, 0, b))
    ensures forall t :: t in Listing(h, root, ts, g, root, 0, b) <==> t in ts && Overlapping(b, ts[t])
    ensures Listing(h, root, ts, g, root, 0, b) != [] ==> Overlapping(b, h[root].span)
  {
    ListingOnce(h, root, ts, g, root, 0, b);
    var all := Listing(h, root, ts, g, root, 0, b);
    forall t
      ensures t in all <==> t in ts && Overlapping(b, ts[t])
      ensures t in all ==> Overlapping(b, h[root].span)
    {
      if t in all {
        ListingSound(h, root, ts, g, root, 0, b, t);
      }
      if t in ts && Overlapping(b, ts[t]) {
        var a := g.home[t];
        var i :| 0 <= i < |h[a].slots| && h[a].slots[i] == Term(t);
        HullCovers(h, root, ts, g, a, i);
        CoverOverlaps(b, h[a].span, ts[t]);
        ListedAt(h, root, ts, g, a, 0, i, b, t);
        ListedUp(h, root, ts, g, a, b, t);
      }
    }
    assert all != [] ==> all[0] in all;
  }

  // ----- the explicit stack of a query -----

  /** A node on the way down and the next slot to look at in it. */
  datatype Crumb = Crumb(addr: Addr, slot: nat)

  /** The slot passed last in `c` refers to node `a`. */
  ghost predicate Entered(h: Nodes, c: Crumb, s: Slot)
  {
    c.addr in h && 0 < c.slot <= |h[c.addr].slots| && h[c.addr].slots[c.slot - 1] == s
  }

  /** The breadcrumbs lead from the root down, each node in the slot passed last in the one before. */
  ghost predicate Crumbs(h: Nodes, root: Addr, stack: seq<Crumb>)
  {
    && (forall k {:trigger stack[k]} | 0 <= k < |stack| :: stack[k].addr in h && stack[k].slot <= |h[stack[k].addr].slots|)
    && (stack != [] ==> stack[0].addr == root)
    && (forall k {:trigger Entered(h, stack[k - 1], Sub(stack[k].addr))} | 0 < k < |stack| ::
          Entered(h, stack[k - 1], Sub(stack[k].addr)))
  }

  /** What a query has still to list: the rest of each node on the stack, innermost first. */
  ghost function Pending(h: Nodes, root: Addr, ts: map<Addr, Span>, g: Family, stack: seq<Crumb>, b: Span): seq<Addr>
    requires TreeShape(h, root, ts, g) && Crumbs(h, root, stack)
    decreases |stack|
  {
    if stack == [] then []
    else
      var top := stack[|stack| - 1];
      CrumbsBelow(h, root, stack);
      Listing(h, root, ts, g, top.addr, top.slot, b) + Pending(h, root, ts, g, stack[..|stack| - 1], b)
  }

  /** A query starts with the root on its stack, unless that would list nothing anyway. */
  lemma QueryStarts(h: Nodes, root: Addr, ts: map<Addr, Span>, g: Family, b: Span)
    requires TreeShape(h, root, ts, g) && Full(h, root, ts) && Hulls(h, ts, {}, NO_SPAN)
    ensures root in h && Crumbs(h, root, [Crumb(root, 0)])
    ensures Pending(h, root, ts, g, [Crumb(root, 0)], b) == Listing(h, root, ts, g, root, 0, b)
    ensures !Overlapping(b, h[root].span) || h[root].slots == [] ==> Listing(h, root, ts, g, root, 0, b) == []
  {
    ListingIsExact(h, root, ts, g, b);
    var stack := [Crumb(root, 0)];
    assert stack[..0] == [];
  }

  lemma NothingPending(h: Nodes, root: Addr, ts: map<Addr, Span>, g: Family, b: Span)
    requires TreeShape(h, root, ts, g)
    ensures Crumbs(h, root, []) && Pending(h, root, ts, g, [], b) == []
  {
  }

  /** A node whose slots are all passed adds nothing. */
  lemma NodePassed(h: Nodes, root: Addr, ts: map<Addr, Span>, g: Family, stack: seq<Crumb>, b: Span)
    requires TreeShape(h, root, ts, g) && Crumbs(h, root, stack) && stack != []
    requires var top := stack[|stack| - 1]; top.slot == |h[top.addr].slots|
    ensures var front := stack[..|stack| - 1];
      && Crumbs(h, root, front) && Pending(h, root, ts, g, stack, b) == Pending(h, root, ts, g, front, b)
      && WorkLeft(h, root, ts, g, front) < WorkLeft(h, root, ts, g, stack)
  {
    CrumbsBelow(h, root, stack);
  }

  lemma CrumbsBelow(h: Nodes, root: Addr, stack: seq<Crumb>)
    requires Crumbs(h, root, stack) && stack != []
    ensures Crumbs(h, root, stack[..|stack| - 1])
  {
    var front := stack[..|stack| - 1];
    forall k | 0 < k < |front|
      ensures Entered(h, front[k - 1], Sub(front[k].addr))
    {
      assert Entered(h, stack[k - 1], Sub(stack[k].addr));
    }
  }

  /** How many steps a query can take from a slot of a node on. */
  ghost function Work(h: Nodes, root: Addr, ts: map<Addr, Span>, g: Family, a: Addr, i: nat): nat
    requires TreeShape(h, root, ts, g) && a in h && i <= |h[a].slots|
    decreases g.below[a], |h[a].slots| - i
  {
    if i == |h[a].slots| then 0
    else
      var rest := Work(h, root, ts, g, a, i + 1);
      match h[a].slots[i]
      case Term(t) => 1 + rest
      case Sub(c) =>
        ChildBelow(h, root, ts, g, a, i, c);
        2 + Work(h, root, ts, g, c, 0) + rest
  }

  ghost function WorkLeft(h: Nodes, root: Addr, ts: map<Addr, Span>, g: Family, stack: seq<Crumb>): nat
    requires TreeShape(h, root, ts, g) && Crumbs(h, root, stack)
    decreases |stack|
  {
    if stack == [] then 0
    else
      var top := stack[|stack| - 1];
      CrumbsBelow(h, root, stack);
      1 + Work(h, root, ts, g, top.addr, top.slot) + WorkLeft(h, root, ts, g, stack[..|stack| - 1])
  }

  /** The stack after looking at the next slot of its top, and after entering the node in it. */
  function Passed(stack: seq<Crumb>): seq<Crumb>
    requires stack != []
  {
    var m := |stack| - 1;
    stack[..m] + [Crumb(stack[m].addr, stack[m].slot + 1)]
  }

  lemma CrumbsPassed(h: Nodes, root: Addr, stack: seq<Crumb>)
    requires Crumbs(h, root, stack) && stack != []
    requires var top := stack[|stack| - 1]; top.slot < |h[top.addr].slots|
    ensures Crumbs(h, root, Passed(stack)) && Passed(stack)[..|stack| - 1] == stack[..|stack| - 1]
    ensures var top := stack[|stack| - 1]; Entered(h, Passed(stack)[|stack| - 1], h[top.addr].slots[top.slot])
  {
    var stack' := Passed(stack);
    forall k | 0 < k < |stack'|
      ensures Entered(h, stack'[k - 1], Sub(stack'[k].addr))
    {
      assert Entered(h, stack[k - 1], Sub(stack[k].addr));
    }
  }

  lemma CrumbsInto(h: Nodes, root: Addr, stack: seq<Crumb>, c: Addr)
    requires Crumbs(h, root, stack) && stack != [] && c in h && Entered(h, stack[|stack| - 1], Sub(c))
    ensures Crumbs(h, root, stack + [Crumb(c, 0)]) && (stack + [Crumb(c, 0)])[..|stack|] == stack
  {
    var stack' := stack + [Crumb(c, 0)];
    forall k | 0 < k < |stack'|
      ensures Entered(h, stack'[k - 1], Sub(stack'[k].addr))
    {
      assert k < |stack| ==> Entered(h, stack[k - 1], Sub(stack[k].addr));
    }
  }

  /** One slot further: what is left to list, and the work that is left. */
  lemma SlotPassed(h: Nodes, root: Addr, ts: map<Addr, Span>, g: Family, stack: seq<Crumb>, b: Span)
    requires TreeShape(h, root, ts, g) && Crumbs(h, root, stack) && stack != []
    requires var top := stack[|stack| - 1]; top.slot < |h[top.addr].slots|
    ensures Crumbs(h, root, Passed(stack))
    ensures var top := stack[|stack| - 1]; Entered(h, Passed(stack)[|stack| - 1], h[top.addr].slots[top.slot])
    ensures var top := stack[|stack| - 1];
      Pending(h, root, ts, g, stack, b) == SlotListing(h, root, ts, g, top.addr, top.slot, b) + Pending(h, root, ts, g, Passed(stack), b)
    ensures WorkLeft(h, root, ts, g, Passed(stack)) < WorkLeft(h, root, ts, g, stack)
  {
    hide TreeShape, Entered, SlotListing, Work;
    CrumbsPassed(h, root, stack);
    var top := stack[|stack| - 1];
    CrumbsBelow(h, root, stack);
    LessWork(h, root, ts, g, top.addr, top.slot);
    var one, more := SlotListing(h, root, ts, g, top.addr, top.slot, b), Listing(h, root, ts, g, top.addr, top.slot + 1, b);
    var front := Pending(h, root, ts, g, stack[..|stack| - 1], b);
    assert one + more + front == one + (more + front);
  }

  lemma LessWork(h: Nodes, root: Addr, ts: map<Addr, Span>, g: Family, a: Addr, i: nat)
    requires TreeShape(h, root, ts, g) && a in h && i < |h[a].slots|
    ensures Work(h, root, ts, g, a, i + 1) < Work(h, root, ts, g, a, i)
    ensures h[a].slots[i].Sub? ==>
      (h[a].slots[i].a in h && Work(h, root, ts, g, a, i + 1) + 1 + Work(h, root, ts, g, h[a].slots[i].a, 0) < Work(h, root, ts, g, a, i))
  {
    if h[a].slots[i].Sub? {
      ChildBelow(h, root, ts, g, a, i, h[a].slots[i].a);
    }
  }

  /** Entering a node instead of passing it. */
  lemma SlotEntered(h: Nodes, root: Addr, ts: map<Addr, Span>, g: Family, stack: seq<Crumb>, c: Addr, b: Span)
    requires TreeShape(h, root, ts, g) && Crumbs(h, root, stack) && stack != []
    requires var top := stack[|stack| - 1]; top.slot < |h[top.addr].slots| && h[top.addr].slots[top.slot] == Sub(c)
    requires c in h && Overlapping(b, h[c].span)
    ensures var stack' := Passed(stack) + [Crumb(c, 0)];
      && Crumbs(h, root, stack')
      && Pending(h, root, ts, g, stack', b) == Pending(h, root, ts, g, stack, b)
      && WorkLeft(h, root, ts, g, stack') < WorkLeft(h, root, ts, g, stack)
  {
    hide TreeShape, Entered, Work;
    SlotPassed(h, root, ts, g, stack, b);
    CrumbsPassed(h, root, stack);
    CrumbsInto(h, root, Passed(stack), c);
    var top := stack[|stack| - 1];
    LessWork(h, root, ts, g, top.addr, top.slot);
    CrumbsBelow(h, root, stack);
  }
}
