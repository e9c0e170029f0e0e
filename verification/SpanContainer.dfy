/** A container of spans with a spatial index. */
module SpanContainers {
  import opened Common
  import opened Zones
  import opened SpanTree
  import opened SpanList
  import opened SpanListing
  import opened SpanRepair

  /** Element `x` stands right behind the last element of the run of `t`, which has the same span. */
  ghost predicate JoinsRun(before: seq<Id>, after: seq<Id>, terms: map<Addr, Terminal>, items: map<Id, Span>, x: Id, t: Addr)
  {
    && t in terms && terms[t].first in items && x in items && items[terms[t].first] == items[x]
    && terms[t].second in before && after == InsertId(before, IndexOf(before, terms[t].second) + 1, x)
  }

  /** Where a new element goes: to the front, or to the end of a run of equal spans; the others keep their order. */
  ghost predicate PlacedIn(before: seq<Id>, after: seq<Id>, terms: map<Addr, Terminal>, items: map<Id, Span>, x: Id)
  {
    after == [x] + before || exists t :: JoinsRun(before, after, terms, items, x, t)
  }

  function TakenOut(s: seq<Id>, k: nat): seq<Id>
    requires k < |s|
  {
    s[..k] + s[k + 1..]
  }

  lemma OthersKeepOrder(before: seq<Id>, after: seq<Id>, terms: map<Addr, Terminal>, items: map<Id, Span>, x: Id)
    requires PlacedIn(before, after, terms, items, x)
    ensures exists k :: 0 <= k < |after| && after[k] == x && TakenOut(after, k) == before
  {
    if after == [x] + before {
      assert after[0] == x && TakenOut(after, 0) == before;
    } else {
      var t :| JoinsRun(before, after, terms, items, x, t);
      var k := IndexOf(before, terms[t].second) + 1;
      assert after[k] == x && TakenOut(after, k) == before[..k] + before[k..] == before;
    }
  }

  class SpanContainer {
    var nodes: Nodes
    var root: Addr
    var terms: map<Addr, Terminal>
    /** `_store`: the list nodes in order, and the span in each. */
    var order: seq<Id>
    var items: map<Id, Span>
    ghost var family: Family
    ghost var owner: map<Id, Addr>

    /** The terminals partition the list into runs of equal spans, and every index node records exactly the hull of
        what is below it. */
    ghost predicate Valid()
      reads this
    {
      && RunsOk(terms, order, items, owner)
      && TreeOk(Spans(), {}, NO_SPAN)
    }

    ghost function Spans(): map<Addr, Span>
      reads this`terms, this`items
    {
      TermSpans(terms, items)
    }

    ghost predicate TreeOk(ts: map<Addr, Span>, wide: set<Addr>, p: Span)
      reads this`nodes, this`root, this`family
    {
      TreeShape(nodes, root, ts, family) && Full(nodes, root, ts) && Hulls(nodes, ts, wide, p)
    }

    constructor ()
      ensures Valid() && items == map[]
    {
      nodes, root := map[0 := Index(NO_SPAN, [])], 0;
      terms, order, items := map[], [], map[];
      family, owner := Family(map[], map[], map[0 := {}]), map[];
    }

    // ----- adding -----

    /** The terminals' spans before element `x` has one. */
    ghost function Before(x: Id): map<Addr, Span>
      reads this`terms, this`items
    {
      TermSpans(terms, items - {x})
    }

    /** Element `x` is at the front of the list but not in the index yet; the nodes in `wide` have been widened for it. */
    ghost predicate Adding(x: Id, wide: set<Addr>)
      reads this
    {
      && order != [] && order[0] == x && x in items && items[x].count > 0
      && RunsOk(terms, order[1..], items - {x}, owner)
      && TreeOk(Before(x), wide, items[x])
    }

    /** `span()` of what is in a slot. */
    function SpanOf(s: Slot): Span
      requires match s case Term(t) => t in terms && terms[t].first in items case Sub(c) => c in nodes
      reads this`nodes, this`terms, this`items
    {
      match s
      case Term(t) => items[terms[t].first]
      case Sub(c) => nodes[c].span
    }

    lemma SlotKnown(x: Id, a: Addr, i: nat)
      requires (exists wide :: Adding(x, wide)) && a in nodes && i < |nodes[a].slots|
      ensures var s := nodes[a].slots[i];
        && (match s case Term(t) => t in terms && terms[t].first in items case Sub(c) => c in nodes)
        && SpanOf(s) == SlotSpan(nodes, Before(x), s)
    {
      hide RunsOk, TreeShape, Full, Hulls, TermSpans, SlotSpan;
      var wide :| Adding(x, wide);
      SpanList.SlotKnown(nodes, root, family, terms, order[1..], items - {x}, owner, a, i);
    }

    lemma SlotCount(x: Id, a: Addr)
      requires (exists wide :: Adding(x, wide)) && a in nodes
      ensures |nodes[a].slots| <= CARDINALITY
    {
      var wide :| Adding(x, wide);
      assert NodeOk(nodes, root, Before(x), family, a);
    }

    /** A terminal for `x` in slot `i` of node `a`; later slots shift right. */
    method PutLeaf(x: Id, a: Addr, i: nat)
      requires Adding(x, {a}) && a in nodes && i <= |nodes[a].slots| < CARDINALITY
      modifies this`nodes, this`terms, this`family, this`owner
      ensures Valid()
    {
      hide RunsOk, TermSpans, TreeShape, Full, Hulls;
      SomeIsFree(terms.Keys);
      var t: Addr :| t !in terms;
      SameTerms(terms, items - {x});
      AddLeaf(nodes, root, Before(x), family, a, i, t, items[x]);
      NewRun(terms, order[1..], items - {x}, owner, x, items[x], t);
      assert [x] + order[1..] == order && (items - {x})[x := items[x]] == items;
      nodes := nodes[a := nodes[a].(slots := InsertAt(nodes[a].slots, i, Term(t)))];
      terms := terms[t := Terminal(x, x)];
      family, owner := family.(home := family.home[t := a]), owner[x := t];
    }

    /** A new node in slot `i` of node `a`, for what was there and a terminal for `x`. */
    method PutNode(x: Id, a: Addr, i: nat, newFirst: bool)
      requires Adding(x, {a}) && a in nodes && i < |nodes[a].slots|
      modifies this`nodes, this`terms, this`family, this`owner
      ensures Valid()
    {
      hide RunsOk, TermSpans, TreeShape, Full, Hulls;
      SomeIsFree(terms.Keys);
      SomeIsFree(nodes.Keys);
      var t: Addr :| t !in terms;
      var n: Addr :| n !in nodes;
      var s := nodes[a].slots[i];
      SameTerms(terms, items - {x});
      SplitSlot(nodes, root, Before(x), family, a, i, n, t, items[x], newFirst);
      NewRun(terms, order[1..], items - {x}, owner, x, items[x], t);
      assert [x] + order[1..] == order && (items - {x})[x := items[x]] == items;
      SlotKnown(x, a, i);
      var span := Unite(SpanOf(s), items[x]);
      family, owner := SplitFamily(family, a, n, t, s), owner[x := t];
      nodes := nodes[a := nodes[a].(slots := nodes[a].slots[i := Sub(n)])][n := Index(span, Pair(newFirst, t, s))];
      terms := terms[t := Terminal(x, x)];
    }

    /** `_append_data_ref`: moves `x` behind the last element of the run of `t`. */
    method AppendDataRef(x: Id, a: Addr, i: nat, t: Addr)
      requires Adding(x, {a}) && a in nodes && i < |nodes[a].slots| && nodes[a].slots[i] == Term(t)
      requires SlotSpan(nodes, Before(x), Term(t)) == items[x]
      modifies this`terms, this`order, this`owner
      ensures Valid() && t in old(terms) && old(terms)[t].second in old(order[1..])
      ensures order == InsertId(old(order[1..]), IndexOf(old(order[1..]), old(terms)[t].second) + 1, x)
    {
      hide RunsOk, TreeShape, Full, Hulls;
      NothingWider(nodes, root, Before(x), family, a, i);
      SlotKnown(x, a, i);
      RunExtended(terms, order[1..], items - {x}, owner, x, items[x], t);
      assert (items - {x})[x := items[x]] == items;
      var rest := order[1..];
      order := InsertId(rest, IndexOf(rest, terms[t].second) + 1, x);
      terms := terms[t := terms[t].(second := x)];
      owner := owner[x := t];
    }

    /** `add_index`: down through the overlapping nodes, widening each, to a place for the new element. */
    method AddIndex(x: Id)
      requires Adding(x, {})
      modifies this`nodes, this`terms, this`order, this`family, this`owner
      ensures Valid() && PlacedIn(old(order[1..]), order, old(terms), items, x)
    {
      hide RunsOk, TermSpans, TreeShape, Full, Hulls;
      var p := items[x];
      assert order == [x] + order[1..];
      NoneWide(nodes, Before(x), p, NO_SPAN);
      RootIsThere(nodes, root, Before(x), family);
      WidenRoot(nodes, root, Before(x), family, p);
      nodes := nodes[root := nodes[root].(span := Unite(nodes[root].span, p))];
      RootIsThere(nodes, root, Before(x), family);
      var current, i := root, 0;
      while i < CARDINALITY
        invariant Adding(x, {current}) && current in nodes && i <= |nodes[current].slots| && current in family.below
        invariant items == old(items) && terms == old(terms) && order == old(order)
        decreases family.below[current], CARDINALITY - i
      {
        SlotCount(x, current);
        var slots := nodes[current].slots;
        if i == |slots| {
          PutLeaf(x, current, i);
          return;
        }
        SlotKnown(x, current, i);
        var span := SpanOf(slots[i]);
        if Overlapping(span, p) {
          if slots[i].Sub? {
            var child := slots[i].a;
            WidenChild(nodes, root, Before(x), family, current, i, p);
            nodes := nodes[child := nodes[child].(span := Unite(nodes[child].span, p))];
            current, i := child, 0;
            continue;
          }
          if span == p {
            AppendDataRef(x, current, i, slots[i].t);
            assert JoinsRun(old(order[1..]), order, old(terms), items, x, slots[i].t);
          } else if |slots| == CARDINALITY {
            PutNode(x, current, i, !(span.pos < p.pos));
          } else {
            PutLeaf(x, current, i);
          }
        } else {
          if span.pos < p.pos {
            i := i + 1;
            continue;
          }
          if |slots| == CARDINALITY {
            PutNode(x, current, i, true);
          } else {
            PutLeaf(x, current, i);
          }
        }
        return;
      }
      SlotCount(x, current);
      PutNode(x, current, CARDINALITY - 1, false);
    }

    /** `emplace`: a new element at the front of the list, then in the index. */
    method Emplace(p: Span) returns (x: Id)
      requires Valid() && p.count > 0
      modifies this
      ensures Valid() && x !in old(items) && items == old(items)[x := p]
      ensures PlacedIn(old(order), order, old(terms), items, x)
      ensures exists k :: 0 <= k < |order| && order[k] == x && TakenOut(order, k) == old(order)
    {
      hide RunsOk, TermSpans, TreeShape, Full, Hulls;
      SomeIsFree(items.Keys);
      x :| x !in items;
      assert items[x := p] - {x} == items;
      order, items := [x] + order, items[x := p];
      assert order[1..] == old(order);
      NoneWide(nodes, Before(x), NO_SPAN, p);
      AddIndex(x);
      OthersKeepOrder(old(order), order, old(terms), items, x);
    }

    lemma SlotInValid(a: Addr, i: nat)
      requires RunsOk(terms, order, items, owner) && TreeShape(nodes, root, Spans(), family)
      requires a in nodes && i < |nodes[a].slots|
      ensures var s := nodes[a].slots[i];
        && (match s case Term(t) => t in terms && terms[t].first in items case Sub(c) => c in nodes)
        && SpanOf(s) == SlotSpan(nodes, Spans(), s)
    {
      SpanList.SlotKnown(nodes, root, family, terms, order, items, owner, a, i);
    }

    // ----- querying -----

    /** Iteration from `intersect_with(b)` to the end: every element whose span overlaps `b`, each once. */
    method Intersecting(b: Span) returns (found: seq<Id>)
      requires Valid()
      ensures Distinct(found)
      ensures forall x :: x in found <==> x in items && b.count > 0 && Overlapping(b, items[x])
    {
      hide TermSpans, TreeShape, Full, Hulls, Listing, Runs, RunFrom, Overlapping, Crumbs, Pending;
      var track := new IntersectionTracker(this, b);
      ghost var all := track.Remaining();
      found := [];
      while track.leaf.Some?
        invariant track.Valid() && found + track.Remaining() == all
        decreases |track.Remaining()|
      {
        found := found + [track.iter.value];
        var ok := track.Advance();
      }
      track.AtEnd();
      assert found == all;
      QueryIsExact(b);
    }

    /** What the query lists, in terms of elements. */
    lemma QueryIsExact(b: Span)
      requires Valid()
      ensures var all := Runs(terms, order, Listing(nodes, root, Spans(), family, root, 0, b));
        Distinct(all) && forall x :: x in all <==> x in items && Overlapping(b, items[x])
      ensures forall x | x in items :: x in owner && owner[x] in terms && Spans()[owner[x]] == items[x] && items[x].count > 0
    {
      hide TreeShape, Full, Hulls, Listing, Runs, Overlapping;
      RootIsThere(nodes, root, Spans(), family);
      ListingIsExact(nodes, root, Spans(), family, b);
      var listing := Listing(nodes, root, Spans(), family, root, 0, b);
      RunsAreExact(terms, order, items, owner, listing);
      forall x | x in items
        ensures x in owner && owner[x] in terms && Spans()[owner[x]] == items[x] && items[x].count > 0
      {
        assert OwnerOk(terms, items, owner, x);
      }
    }

    // ----- erasing -----

    /** The search of `erase` through the run of one terminal. */
    method InRun(t: Addr, x: Id) returns (hit: bool)
      requires Valid() && t in terms && x in items
      ensures hit <==> owner[x] == t
    {
      hide RunFrom, TreeShape, Full, Hulls, RunsOk, IndexOf;
      FirstOfRun(terms, order, items, owner, t);
      RunIsExact(terms, order, items, owner, t);
      OwnersKnown();
      ghost var passed: seq<Id> := [];
      var i := terms[t].first;
      while i != x && i != terms[t].second
        invariant i in owner && owner[i] == t && RunOf(terms, order, t) == passed + RunFrom(terms, order, t, i) && x !in passed
        decreases |RunFrom(terms, order, t, i)|
      {
        RunStep(terms, order, items, owner, t, i);
        passed := passed + [i];
        i := order[IndexOf(order, i) + 1];
      }
      if i != x {
        RunStep(terms, order, items, owner, t, i);
        assert x !in RunOf(terms, order, t);
      }
      return i == x;
    }

    lemma OwnersKnown()
      requires Valid()
      ensures owner.Keys == items.Keys == (set x | x in order)
    {
    }

    /** `_erase_top_item` at the innermost breadcrumb. */
    method EraseTopItem(stack: seq<Crumb>)
      requires stack != []
      requires var top := stack[|stack| - 1]; top.addr in nodes && 0 < top.slot <= |nodes[top.addr].slots|
      modifies this`nodes
      ensures var top := stack[|stack| - 1];
        nodes == old(nodes)[top.addr := old(nodes)[top.addr].(slots := RemoveAt(old(nodes)[top.addr].slots, top.slot - 1))]
    {
      var top := stack[|stack| - 1];
      nodes := nodes[top.addr := nodes[top.addr].(slots := RemoveAt(nodes[top.addr].slots, top.slot - 1))];
    }

    /** The hull of the slots of a node, from scratch. */
    method UniteSlots(a: Addr) returns (span: Span)
      requires RunsOk(terms, order, items, owner) && TreeShape(nodes, root, Spans(), family) && a in nodes
      ensures span == HullOf(nodes, Spans(), a)
    {
      hide RunsOk, TreeShape, TermSpans, Unite;
      ghost var spans := SlotSpans(nodes, Spans(), nodes[a].slots);
      span := NO_SPAN;
      for i := 0 to |nodes[a].slots|
        invariant span == Hull(spans[..i])
      {
        SlotInValid(a, i);
        assert spans[..i + 1][..i] == spans[..i];
        span := Unite(span, SpanOf(nodes[a].slots[i]));
      }
      assert spans[..|spans|] == spans;
    }

    /** `_optimize_up`: takes out the nodes that became empty, up to but not including the root, and computes the hulls
        on the rest of the path anew. */
    method OptimizeUp(breadcrumbs: seq<Crumb>)
      requires RunsOk(terms, order, items, owner) && Repairing(nodes, root, Spans(), family, breadcrumbs) && breadcrumbs != []
      modifies this`nodes, this`family
      ensures Valid()
    {
      hide RunsOk, TermSpans, Repairing, Tightening, Hulls, Full, HullOf;
      var stack := breadcrumbs;
      TopIsThere(nodes, root, Spans(), family, stack);
      while |nodes[stack[|stack| - 1].addr].slots| == 0 && |stack| > 1
        invariant stack != [] && stack[|stack| - 1].addr in nodes && Repairing(nodes, root, Spans(), family, stack)
        decreases |stack|
      {
        var c := stack[|stack| - 1].addr;
        EraseEmpty(nodes, root, Spans(), family, stack);
        stack := stack[..|stack| - 1];
        nodes := nodes - {c};
        EraseTopItem(stack);
        family := WithoutNode(family, c);
      }
      NowFull(nodes, root, Spans(), family, stack);
      while stack != []
        invariant Tightening(nodes, root, Spans(), family, stack)
        decreases |stack|
      {
        var a := stack[|stack| - 1].addr;
        TightenTop(nodes, root, Spans(), family, stack);
        ShapeWhileTightening(nodes, root, Spans(), family, stack);
        var span := UniteSlots(a);
        nodes := nodes[a := nodes[a].(span := span)];
        stack := stack[..|stack| - 1];
      }
      NothingLoose(nodes, root, Spans(), family);
    }

    /** Erasing element `x`, found in the run of terminal `t` by a query that is still there. */
    method EraseAt(track: IntersectionTracker, t: Addr, x: Id)
      requires Valid() && track.from == this && track.Valid() && track.leaf == Some(t) && x in items && owner[x] == t
      modifies this
      ensures Valid() && items == old(items) - {x}
      ensures x in old(order) && order == RemoveId(old(order), IndexOf(old(order), x))
    {
      hide TermSpans, TreeShape, Full, Hulls, RunsOk, Repairing, Crumbs, Entered, HullOf;
      OwnersKnown();
      assert x in order;
      var term, k := terms[t], IndexOf(order, x);
      var stack := track.breadcrumbs;
      if term.first == term.second {
        RunGone(terms, order, items, owner, k);
        EraseLeaf(nodes, root, Spans(), family, stack, t);
        EnteredSlot(nodes, stack[|stack| - 1], Term(t));
        order, items, terms := RemoveId(order, k), items - {x}, terms - {t};
        owner, family := owner - {x}, family.(home := family.home - {t});
        EraseTopItem(stack);
        OptimizeUp(stack);
      } else {
        RunShortened(terms, order, items, owner, k);
        order, items, owner := RemoveId(order, k), items - {x}, owner - {x};
        if term.second == x {
          terms := terms[t := term.(second := order[k - 1])];
        } else if term.first == x {
          terms := terms[t := term.(first := order[k])];
        } else {
          terms := terms[t := term];
        }
      }
    }

    /** `erase`: removes exactly the element at the iterator, and returns 1, or 0 for the end iterator. */
    method Erase(pos: Option<Id>) returns (n: nat)
      requires Valid() && (pos.Some? ==> pos.value in items)
      modifies this
      ensures Valid()
      ensures pos.None? ==> n == 0 && items == old(items) && order == old(order)
      ensures pos.Some? ==> n == 1 && items == old(items) - {pos.value}
      ensures pos.Some? ==> pos.value in old(order) && order == RemoveId(old(order), IndexOf(old(order), pos.value))
    {
      hide TermSpans, TreeShape, Full, Hulls, RunsOk, Listing, Runs, RunFrom, Overlapping, Crumbs, Pending;
      RootIsThere(nodes, root, Spans(), family);
      if pos.Some? {
        IsFound(pos.value);
      }
      n := 0;
      if pos.None? || !Overlapping(items[pos.value], nodes[root].span) {
        return;
      }
      var x := pos.value;
      var track := new IntersectionTracker(this, items[x]);
      var t := track.leaf;
      assert x in track.Remaining();
      while t.Some?
        invariant unchanged(this) && track.Valid() && t == track.leaf && x in track.Remaining()
        decreases |track.Remaining()|
      {
        var hit := InRun(t.value, x);
        if hit {
          EraseAt(track, t.value, x);
          return 1;
        }
        assert track.iter.value != x;
        var ok := track.Advance();
        t := track.leaf;
      }
      track.AtEnd();
      assert false;
    }

    /** A query for its own span finds an element. */
    lemma IsFound(x: Id)
      requires Valid() && x in items
      ensures items[x].count > 0 && Overlapping(items[x], nodes[root].span)
      ensures x in Runs(terms, order, Listing(nodes, root, Spans(), family, root, 0, items[x]))
    {
      hide TreeShape, Full, Hulls, RunsOk, Runs, Listing;
      QueryIsExact(items[x]);
      ListingIsExact(nodes, root, Spans(), family, items[x]);
      assert Overlapping(items[x], items[x]);
      assert Runs(terms, order, []) == [] by { NoRuns(terms, order); }
    }
  }

  /** A query on its way through the container: the stack of nodes entered, the terminal it has come to and the
      element in the run of that terminal. */
  class IntersectionTracker {
    const from: SpanContainer
    const boundary: Span
    var breadcrumbs: seq<Crumb>
    var leaf: Option<Addr>
    var iter: Option<Id>

    ghost predicate Walking()
      reads this`breadcrumbs, from
    {
      from.Valid() && Crumbs(from.nodes, from.root, breadcrumbs)
    }

    ghost function PendingTerms(): seq<Addr>
      requires Walking()
      reads this`breadcrumbs, from
    {
      Pending(from.nodes, from.root, from.Spans(), from.family, breadcrumbs, boundary)
    }

    ghost function StepsLeft(): nat
      requires Walking()
      reads this`breadcrumbs, from
    {
      WorkLeft(from.nodes, from.root, from.Spans(), from.family, breadcrumbs)
    }

    ghost predicate Valid()
      reads this, from
    {
      && Walking()
      && (leaf.None? ==> breadcrumbs == [] && iter.None?)
      && (leaf.Some? ==>
            && leaf.value in from.terms && iter.Some? && iter.value in from.owner && from.owner[iter.value] == leaf.value
            && AtTerm(leaf.value))
    }

    /** The innermost node's slot passed last refers to terminal `t`. */
    ghost predicate AtTerm(t: Addr)
      reads this`breadcrumbs, from`nodes
    {
      breadcrumbs != [] && Entered(from.nodes, breadcrumbs[|breadcrumbs| - 1], Term(t))
    }

    /** The elements that the query still yields, the current one first. */
    ghost function Remaining(): seq<Id>
      requires Valid()
      reads this, from
    {
      (if leaf.None? then [] else RunFrom(from.terms, from.order, leaf.value, iter.value))
      + Runs(from.terms, from.order, PendingTerms())
    }

    constructor (from: SpanContainer, boundary: Span)
      requires from.Valid()
      ensures this.from == from && this.boundary == boundary && Valid()
      ensures Remaining() == if boundary.count == 0 then []
        else Runs(from.terms, from.order, Listing(from.nodes, from.root, from.Spans(), from.family, from.root, 0, boundary))
    {
      this.from, this.boundary := from, boundary;
      breadcrumbs, leaf, iter := [], None, None;
      new;
      hide RunsOk, TreeShape, Full, Hulls, Overlapping, Listing, Crumbs, Pending, WorkLeft, Entered;
      QueryStarts(from.nodes, from.root, from.Spans(), from.family, boundary);
      NothingPending(from.nodes, from.root, from.Spans(), from.family, boundary);
      if boundary.count > 0 && Overlapping(boundary, from.nodes[from.root].span) && |from.nodes[from.root].slots| > 0 {
        breadcrumbs := [Crumb(from.root, 0)];
        FetchOnBackground();
      }
    }

    /** One slot in `_next`: passes it, or enters the node in it, or arrives at a terminal. */
    method LookAtSlot() returns (t: Option<Addr>)
      requires Walking() && breadcrumbs != []
      requires var top := breadcrumbs[|breadcrumbs| - 1]; top.addr in from.nodes && top.slot < |from.nodes[top.addr].slots|
      modifies this`breadcrumbs
      ensures Walking() && breadcrumbs != [] && StepsLeft() < old(StepsLeft())
      ensures t.None? ==> PendingTerms() == old(PendingTerms())
      ensures t.Some? ==> old(PendingTerms()) == [t.value] + PendingTerms() && AtTerm(t.value) && t.value in from.terms
    {
      hide RunsOk, TreeShape, Full, Hulls, Overlapping, Crumbs, Listing, Entered, Pending, WorkLeft;
      var top := breadcrumbs[|breadcrumbs| - 1];
      var child := from.nodes[top.addr].slots[top.slot];
      from.SlotInValid(top.addr, top.slot);
      SlotPassed(from.nodes, from.root, from.Spans(), from.family, breadcrumbs, boundary);
      if !Overlapping(boundary, from.SpanOf(child)) {
        breadcrumbs := Passed(breadcrumbs);
        return None;
      }
      if child.Term? {
        breadcrumbs := Passed(breadcrumbs);
        return Some(child.t);
      }
      SlotEntered(from.nodes, from.root, from.Spans(), from.family, breadcrumbs, child.a, boundary);
      breadcrumbs := Passed(breadcrumbs) + [Crumb(child.a, 0)];
      return None;
    }

    /** `in_range` of the slot to look at next. */
    predicate InRange()
      requires breadcrumbs != [] && breadcrumbs[|breadcrumbs| - 1].addr in from.nodes
      reads this`breadcrumbs, from`nodes
    {
      var top := breadcrumbs[|breadcrumbs| - 1];
      top.slot < |from.nodes[top.addr].slots|
    }

    lemma TopInRange()
      requires Walking() && breadcrumbs != []
      ensures breadcrumbs[|breadcrumbs| - 1].addr in from.nodes
      ensures !InRange() ==>
        var top := breadcrumbs[|breadcrumbs| - 1]; top.slot == |from.nodes[top.addr].slots|
    {
    }

    /** `_next`: to the next terminal that overlaps the boundary, leftmost and deepest first. */
    method Next() returns (l: Option<Addr>, it: Option<Id>)
      requires Walking()
      modifies this`breadcrumbs
      ensures Walking()
      ensures l.None? ==> old(PendingTerms()) == [] && breadcrumbs == [] && it.None?
      ensures l.Some? ==>
        && old(PendingTerms()) == [l.value] + PendingTerms() && AtTerm(l.value)
        && l.value in from.terms && it == Some(from.terms[l.value].first)
    {
      hide RunsOk, TreeShape, Full, Hulls, Crumbs, Pending, WorkLeft, Entered;
      while breadcrumbs != []
        invariant Walking() && PendingTerms() == old(PendingTerms())
        decreases StepsLeft()
      {
        ghost var steps := StepsLeft();
        TopInRange();
        while InRange()
          invariant breadcrumbs != [] && breadcrumbs[|breadcrumbs| - 1].addr in from.nodes
          invariant Walking() && PendingTerms() == old(PendingTerms()) && StepsLeft() <= steps
          decreases StepsLeft()
        {
          var t := LookAtSlot();
          if t.Some? {
            return t, Some(from.terms[t.value].first);
          }
          TopInRange();
        }
        TopInRange();
        NodePassed(from.nodes, from.root, from.Spans(), from.family, breadcrumbs, boundary);
        breadcrumbs := breadcrumbs[..|breadcrumbs| - 1];
      }
      assert PendingTerms() == [] by { NothingPending(from.nodes, from.root, from.Spans(), from.family, boundary); }
      return None, None;
    }

    lemma AtEnd()
      requires Valid() && leaf.None?
      ensures Remaining() == []
    {
    }

    /** `_fetch_on_background`. */
    method FetchOnBackground()
      requires Walking()
      modifies this`breadcrumbs, this`leaf, this`iter
      ensures Valid() && Remaining() == Runs(from.terms, from.order, old(PendingTerms()))
    {
      hide RunsOk, TreeShape, Full, Hulls, Crumbs, Pending, WorkLeft, Entered;
      ghost var before := PendingTerms();
      leaf, iter := Next();
      if leaf.Some? {
        FirstOfRun(from.terms, from.order, from.items, from.owner, leaf.value);
        RunsFirst(from.terms, from.order, leaf.value, PendingTerms());
      } else {
        NothingPending(from.nodes, from.root, from.Spans(), from.family, boundary);
      }
    }

    /** `operator++`: to the next element of the run, or of the next terminal. False is the exception at the end. */
    method Advance() returns (ok: bool)
      requires Valid()
      modifies this`breadcrumbs, this`leaf, this`iter
      ensures Valid() && (ok <==> old(leaf.Some?))
      ensures ok ==> old(Remaining()) == [old(iter).value] + Remaining()
    {
      hide RunsOk, TreeShape, Full, Hulls, Crumbs, Pending, WorkLeft, Entered;
      if leaf.None? {
        return false;
      }
      var x := iter.value;
      RunStep(from.terms, from.order, from.items, from.owner, leaf.value, x);
      var next := IndexOf(from.order, x) + 1;
      iter := if next == |from.order| then None else Some(from.order[next]);
      if iter.None? || from.terms[leaf.value].second == x {
        FetchOnBackground();
      }
      return true;
    }
  }
}
