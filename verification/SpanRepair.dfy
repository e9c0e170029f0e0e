/** Going back up after an erase: the path that the query has left on its stack. */
module SpanRepair {
  import opened Common
  import opened Zones
  import opened SpanTree
  import opened SpanListing

  /** The nodes of the stack, each in a slot of the one before; what is in the last one does not matter. */
  ghost predicate PathDown(h: Nodes, root: Addr, stack: seq<Crumb>)
  {
    && (forall k {:trigger stack[k]} | 0 <= k < |stack| :: stack[k].addr in h)
    && (stack != [] ==> stack[0].addr == root)
    && (forall k {:trigger Entered(h, stack[k - 1], Sub(stack[k].addr))} | 0 < k < |stack| ::
          Entered(h, stack[k - 1], Sub(stack[k].addr)))
  }

  ghost function Addrs(stack: seq<Crumb>): set<Addr>
  {
    set c | c in stack :: c.addr
  }

  /** While a path is being repaired: only its nodes may record hulls that are too wide, and only the last may be
      empty. */
  ghost predicate Repairing(h: Nodes, root: Addr, ts: map<Addr, Span>, g: Family, stack: seq<Crumb>)
  {
    && TreeShape(h, root, ts, g) && PathDown(h, root, stack) && HullsBelow(h, ts, Addrs(stack))
    && if stack == [] then Full(h, root, ts) else FullBut(h, root, ts, stack[|stack| - 1].addr)
  }

  /** Repairing after the empty nodes are gone. */
  ghost predicate Tightening(h: Nodes, root: Addr, ts: map<Addr, Span>, g: Family, stack: seq<Crumb>)
  {
    TreeShape(h, root, ts, g) && PathDown(h, root, stack) && HullsBelow(h, ts, Addrs(stack)) && Full(h, root, ts)
  }

  lemma CrumbsArePath(h: Nodes, root: Addr, stack: seq<Crumb>)
    requires Crumbs(h, root, stack)
    ensures PathDown(h, root, stack)
  {
  }

  lemma PathAbove(h: Nodes, root: Addr, stack: seq<Crumb>)
    requires PathDown(h, root, stack) && stack != []
    ensures PathDown(h, root, stack[..|stack| - 1])
    ensures |stack| > 1 ==> Entered(h, stack[|stack| - 2], Sub(stack[|stack| - 1].addr))
  {
    var front := stack[..|stack| - 1];
    forall k | 0 < k < |front|
      ensures Entered(h, front[k - 1], Sub(front[k].addr))
    {
      assert Entered(h, stack[k - 1], Sub(stack[k].addr));
    }
    if |stack| > 1 {
      var k := |stack| - 1;
      assert Entered(h, stack[k - 1], Sub(stack[k].addr));
    }
  }

  /** The last node of a path is below all the others. */
  lemma {:induction false} PathApart(h: Nodes, root: Addr, ts: map<Addr, Span>, g: Family, stack: seq<Crumb>, i: nat)
    requires TreeShape(h, root, ts, g) && PathDown(h, root, stack) && i < |stack| - 1
    ensures stack[i].addr in h && stack[|stack| - 1].addr in g.below[stack[i].addr]
    ensures stack[i].addr != stack[|stack| - 1].addr
    decreases |stack|
  {
    var m := |stack| - 1;
    var a := stack[m - 1];
    PathAbove(h, root, stack);
    ChildBelow(h, root, ts, g, a.addr, a.slot - 1, stack[m].addr);
    assert NodeOk(h, root, ts, g, stack[i].addr) && NodeOk(h, root, ts, g, stack[m].addr);
    if i < m - 1 {
      PathApart(h, root, ts, g, stack[..m], i);
      BelowIsClosed(h, root, ts, g, stack[i].addr, a.addr, stack[m].addr);
    }
  }

  lemma {:induction false} BelowIsClosed(h: Nodes, root: Addr, ts: map<Addr, Span>, g: Family, x: Addr, y: Addr, z: Addr)
    requires TreeShape(h, root, ts, g) && x in h && y in h && y in g.below[x] && z in g.below[y]
    ensures z in g.below[x]
    decreases h.Keys - g.below[y]
  {
    assert NodeOk(h, root, ts, g, x) && NodeOk(h, root, ts, g, y);
    var u := g.up[y];
    ParentAbove(h, root, ts, g, y);
    if u != x {
      BelowIsClosed(h, root, ts, g, x, u, z);
    }
  }

  /** A change of the last node, or of nodes off the path, leaves the path. */
  lemma PathKept(h: Nodes, h': Nodes, root: Addr, stack: seq<Crumb>)
    requires PathDown(h, root, stack) && forall k | 0 <= k < |stack| :: stack[k].addr in h'
    requires forall k | 0 <= k < |stack| - 1 :: h'[stack[k].addr].slots == h[stack[k].addr].slots
    ensures PathDown(h', root, stack)
  {
    forall k | 0 < k < |stack|
      ensures Entered(h', stack[k - 1], Sub(stack[k].addr))
    {
      assert Entered(h, stack[k - 1], Sub(stack[k].addr));
    }
  }

  /** `_erase_top_item` on a terminal. */
  lemma EraseLeaf(h: Nodes, root: Addr, ts: map<Addr, Span>, g: Family, stack: seq<Crumb>, t: Addr)
    requires TreeShape(h, root, ts, g) && Full(h, root, ts) && Hulls(h, ts, {}, NO_SPAN) && Crumbs(h, root, stack)
    requires stack != [] && Entered(h, stack[|stack| - 1], Term(t))
    ensures var top := stack[|stack| - 1];
      var h' := h[top.addr := h[top.addr].(slots := RemoveAt(h[top.addr].slots, top.slot - 1))];
      Repairing(h', root, ts - {t}, g.(home := g.home - {t}), stack)
  {
    hide TreeShape, Full, FullBut, HullOf;
    var m := |stack| - 1;
    var top := stack[m];
    var h' := h[top.addr := h[top.addr].(slots := RemoveAt(h[top.addr].slots, top.slot - 1))];
    CrumbsArePath(h, root, stack);
    assert top in stack;
    DropLeaf(h, root, ts, g, top.addr, top.slot - 1, t, Addrs(stack));
    forall k | 0 <= k < m
      ensures stack[k].addr != top.addr
    {
      PathApart(h, root, ts, g, stack, k);
    }
    PathKept(h, h', root, stack);
  }

  /** `_optimize_up`: an empty node is taken out of its parent. */
  lemma EraseEmpty(h: Nodes, root: Addr, ts: map<Addr, Span>, g: Family, stack: seq<Crumb>)
    requires Repairing(h, root, ts, g, stack) && |stack| > 1 && h[stack[|stack| - 1].addr].slots == []
    ensures var m := |stack| - 1; var c, top := stack[m].addr, stack[m - 1];
      Entered(h, top, Sub(c)) && c in h && top.addr != c
    ensures var m := |stack| - 1; var c, top := stack[m].addr, stack[m - 1];
      var h' := (h - {c})[top.addr := h[top.addr].(slots := RemoveAt(h[top.addr].slots, top.slot - 1))];
      Repairing(h', root, ts, WithoutNode(g, c), stack[..m])
  {
    hide TreeShape, FullBut, HullOf, Entered;
    var m := |stack| - 1;
    var c, top, front := stack[m].addr, stack[m - 1], stack[..m];
    PathAbove(h, root, stack);
    EnteredSlot(h, top, Sub(c));
    assert Addrs(stack) == Addrs(front) + {c} by {
      assert stack == front + [stack[m]];
    }
    assert top in front;
    DropSub(h, root, ts, g, top.addr, top.slot - 1, c, Addrs(front));
    var h' := (h - {c})[top.addr := h[top.addr].(slots := RemoveAt(h[top.addr].slots, top.slot - 1))];
    forall k | 0 <= k < m
      ensures front[k].addr in h' && (k < m - 1 ==> h'[front[k].addr].slots == h[front[k].addr].slots)
    {
      PathApart(h, root, ts, g, stack, k);
      if k < m - 1 {
        PathApart(h, root, ts, g, front, k);
      }
    }
    PathKept(h, h', root, front);
  }

  lemma EnteredSlot(h: Nodes, c: Crumb, s: Slot)
    requires Entered(h, c, s)
    ensures c.addr in h && 0 < c.slot <= |h[c.addr].slots| && h[c.addr].slots[c.slot - 1] == s
  {
  }

  /** No empty node is left on the path, or only the root. */
  lemma NowFull(h: Nodes, root: Addr, ts: map<Addr, Span>, g: Family, stack: seq<Crumb>)
    requires Repairing(h, root, ts, g, stack) && stack != []
    requires h[stack[|stack| - 1].addr].slots != [] || |stack| == 1
    ensures Tightening(h, root, ts, g, stack)
  {
  }

  /** `_optimize_up`: the hull of the last node is computed anew. */
  lemma TightenTop(h: Nodes, root: Addr, ts: map<Addr, Span>, g: Family, stack: seq<Crumb>)
    requires Tightening(h, root, ts, g, stack) && stack != []
    ensures var a := stack[|stack| - 1].addr; a in h
    ensures var m := |stack| - 1; var a := stack[m].addr;
      Tightening(h[a := h[a].(span := HullOf(h, ts, a))], root, ts, g, stack[..m])
  {
    hide TreeShape, Full, HullOf, Entered;
    var m := |stack| - 1;
    var a, front := stack[m].addr, stack[..m];
    PathAbove(h, root, stack);
    if m > 0 {
      var up := stack[m - 1];
      EnteredSlot(h, up, Sub(a));
      ChildBelow(h, root, ts, g, up.addr, up.slot - 1, a);
      assert up in stack;
    }
    assert Addrs(stack) - {a} == Addrs(front) by {
      forall k | 0 <= k < m
        ensures stack[k].addr != a
      {
        PathApart(h, root, ts, g, stack, k);
      }
      assert stack == front + [stack[m]];
      assert forall c | c in front :: c.addr != a;
    }
    UpKnown(h, root, ts, g, a);
    Tighten(h, root, ts, g, a, Addrs(stack));
    PathKept(h, h[a := h[a].(span := HullOf(h, ts, a))], root, front);
  }

  lemma UpKnown(h: Nodes, root: Addr, ts: map<Addr, Span>, g: Family, a: Addr)
    requires TreeShape(h, root, ts, g) && a in h
    ensures a != root ==> a in g.up
  {
  }

  lemma NothingLoose(h: Nodes, root: Addr, ts: map<Addr, Span>, g: Family)
    requires Tightening(h, root, ts, g, [])
    ensures TreeShape(h, root, ts, g) && Full(h, root, ts) && Hulls(h, ts, {}, NO_SPAN)
  {
    assert Addrs([]) == {};
  }

  lemma TopIsThere(h: Nodes, root: Addr, ts: map<Addr, Span>, g: Family, stack: seq<Crumb>)
    requires Repairing(h, root, ts, g, stack) && stack != []
    ensures stack[|stack| - 1].addr in h
  {
  }

  lemma ShapeWhileTightening(h: Nodes, root: Addr, ts: map<Addr, Span>, g: Family, stack: seq<Crumb>)
    requires Tightening(h, root, ts, g, stack)
    ensures TreeShape(h, root, ts, g)
  {
  }
}
