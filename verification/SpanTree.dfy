/** The spatial index: nodes of at most three slots, each a terminal or another node, and the hull of what is below. */
module SpanTree {
  import opened Common
  import opened Zones

  type Addr = nat

  datatype Slot = Term(t: Addr) | Sub(a: Addr)

  datatype Index = Index(span: Span, slots: seq<Slot>)

  type Nodes = map<Addr, Index>

  const CARDINALITY := 3

  /** The family ties of a tree in memory: the node that holds each terminal, the parent of each node, and all nodes
      below each node. */
  datatype Family = Family(home: map<Addr, Addr>, up: map<Addr, Addr>, below: map<Addr, set<Addr>>)

  ghost predicate SlotOk(h: Nodes, root: Addr, ts: map<Addr, Span>, g: Family, a: Addr, s: Slot)
  {
    match s
    case Term(t) => t in ts && t in g.home && g.home[t] == a
    case Sub(c) =>
      && c in h && c != root && c in g.up && g.up[c] == a
      && c in g.below && a in g.below && g.below[c] + {c} <= g.below[a]
  }

  ghost predicate NodeOk(h: Nodes, root: Addr, ts: map<Addr, Span>, g: Family, a: Addr)
    requires a in h && a in g.below
  {
    && |h[a].slots| <= CARDINALITY && Distinct(h[a].slots)
    && (forall i {:trigger h[a].slots[i]} | 0 <= i < |h[a].slots| :: SlotOk(h, root, ts, g, a, h[a].slots[i]))
    && a !in g.below[a] && g.below[a] <= h.Keys
    && (forall x {:trigger x in g.below[a]} | x in g.below[a] :: x in g.up && (g.up[x] == a || g.up[x] in g.below[a]))
  }

  /** Every terminal and every node but the root sits in exactly one slot, and no node is below itself. */
  ghost predicate TreeShape(h: Nodes, root: Addr, ts: map<Addr, Span>, g: Family)
  {
    && root in h && g.below.Keys == h.Keys && g.home.Keys == ts.Keys && g.up.Keys == h.Keys - {root}
    && (forall a {:trigger NodeOk(h, root, ts, g, a)} | a in h :: NodeOk(h, root, ts, g, a))
    && (forall t {:trigger g.home[t]} | t in ts :: g.home[t] in h && Term(t) in h[g.home[t]].slots)
    && (forall c {:trigger g.up[c]} | c in h && c != root :: g.up[c] in h && Sub(c) in h[g.up[c]].slots)
  }

  function SlotSpan(h: Nodes, ts: map<Addr, Span>, s: Slot): Span
  {
    match s
    case Term(t) => if t in ts then ts[t] else NO_SPAN
    case Sub(c) => if c in h then h[c].span else NO_SPAN
  }

  function SlotSpans(h: Nodes, ts: map<Addr, Span>, slots: seq<Slot>): seq<Span>
  {
    seq(|slots|, i requires 0 <= i < |slots| => SlotSpan(h, ts, slots[i]))
  }

  /** The hull that node `a` should record. */
  function HullOf(h: Nodes, ts: map<Addr, Span>, a: Addr): Span
    requires a in h
  {
    Hull(SlotSpans(h, ts, h[a].slots))
  }

  /** Every node records exactly the hull of its slots; node `wide` has been widened for `p` ahead of its slots. */
  ghost predicate Hulls(h: Nodes, ts: map<Addr, Span>, wide: set<Addr>, p: Span)
  {
    forall a {:trigger HullOf(h, ts, a)} | a in h ::
      h[a].span == if a in wide then Unite(HullOf(h, ts, a), p) else HullOf(h, ts, a)
  }

  lemma NoneWide(h: Nodes, ts: map<Addr, Span>, p: Span, q: Span)
    requires Hulls(h, ts, {}, p)
    ensures Hulls(h, ts, {}, q)
  {
    forall a | a in h
      ensures h[a].span == HullOf(h, ts, a)
    {
      assert h[a].span == HullOf(h, ts, a);
    }
  }

  /** No terminal is empty, and no node but the root. */
  ghost predicate Full(h: Nodes, root: Addr, ts: map<Addr, Span>)
  {
    && (forall t {:trigger ts[t]} | t in ts :: ts[t].count > 0)
    && (forall a {:trigger h[a]} | a in h && a != root :: h[a].slots != [] && h[a].span.count > 0)
  }

  lemma SlotsAreFull(h: Nodes, root: Addr, ts: map<Addr, Span>, g: Family, a: Addr)
    requires TreeShape(h, root, ts, g) && Full(h, root, ts) && a in h
    ensures AllFull(SlotSpans(h, ts, h[a].slots))
  {
    assert NodeOk(h, root, ts, g, a);
    forall i | 0 <= i < |h[a].slots|
      ensures SlotSpans(h, ts, h[a].slots)[i].count > 0
    {
      assert SlotOk(h, root, ts, g, a, h[a].slots[i]);
    }
  }

  lemma RootIsThere(h: Nodes, root: Addr, ts: map<Addr, Span>, g: Family)
    requires TreeShape(h, root, ts, g)
    ensures root in h && g.below.Keys == h.Keys
  {
  }

  // ----- widening the nodes on the way down -----

  /** `add_index` widens the root before it looks at its slots. */
  lemma WidenRoot(h: Nodes, root: Addr, ts: map<Addr, Span>, g: Family, p: Span)
    requires TreeShape(h, root, ts, g) && Full(h, root, ts) && Hulls(h, ts, {}, NO_SPAN)
    ensures var h' := h[root := h[root].(span := Unite(h[root].span, p))];
      TreeShape(h', root, ts, g) && Full(h', root, ts) && Hulls(h', ts, {root}, p)
  {
    var h' := h[root := h[root].(span := Unite(h[root].span, p))];
    SameShape(h, h', root, ts, g);
    forall a | a in h'
      ensures h'[a].span == if a == root then Unite(HullOf(h', ts, a), p) else HullOf(h', ts, a)
    {
      assert NodeOk(h, root, ts, g, a);
      forall i | 0 <= i < |h[a].slots|
        ensures SlotSpan(h', ts, h[a].slots[i]) == SlotSpan(h, ts, h[a].slots[i])
      {
        assert SlotOk(h, root, ts, g, a, h[a].slots[i]);
      }
      assert h[a].span == HullOf(h, ts, a);
      assert SlotSpans(h', ts, h'[a].slots) == SlotSpans(h, ts, h[a].slots);
    }
  }

  /** Spans are no part of the shape. */
  lemma SameShape(h: Nodes, h': Nodes, root: Addr, ts: map<Addr, Span>, g: Family)
    requires TreeShape(h, root, ts, g) && h'.Keys == h.Keys && forall a | a in h :: h'[a].slots == h[a].slots
    ensures TreeShape(h', root, ts, g)
  {
    forall a | a in h'
      ensures NodeOk(h', root, ts, g, a)
    {
      assert NodeOk(h, root, ts, g, a);
      assert h'[a].slots == h[a].slots;
      forall i | 0 <= i < |h'[a].slots|
        ensures SlotOk(h', root, ts, g, a, h'[a].slots[i])
      {
        assert SlotOk(h, root, ts, g, a, h[a].slots[i]);
      }
    }
  }

  /** Diving into a node: the child is widened, and its parent's hull is exact again. */
  lemma WidenChild(h: Nodes, root: Addr, ts: map<Addr, Span>, g: Family, a: Addr, i: nat, p: Span)
    requires TreeShape(h, root, ts, g) && Full(h, root, ts) && Hulls(h, ts, {a}, p) && p.count > 0
    requires a in h && i < |h[a].slots| && h[a].slots[i].Sub?
    ensures var c := h[a].slots[i].a; c in h && g.below[c] < g.below[a]
    ensures var c := h[a].slots[i].a; var h' := h[c := h[c].(span := Unite(h[c].span, p))];
      TreeShape(h', root, ts, g) && Full(h', root, ts) && Hulls(h', ts, {c}, p)
  {
    assert NodeOk(h, root, ts, g, a) && SlotOk(h, root, ts, g, a, h[a].slots[i]);
    var c := h[a].slots[i].a;
    assert NodeOk(h, root, ts, g, c);
    var h' := h[c := h[c].(span := Unite(h[c].span, p))];
    SameShape(h, h', root, ts, g);
    forall b | b in h'
      ensures h'[b].span == if b == c then Unite(HullOf(h', ts, b), p) else HullOf(h', ts, b)
    {
      SpansAfterWiden(h, root, ts, g, a, i, p, b);
      assert h[b].span == if b == a then Unite(HullOf(h, ts, b), p) else HullOf(h, ts, b);
      if b == a {
        SlotsAreFull(h, root, ts, g, a);
        HullWiden(SlotSpans(h, ts, h[a].slots), i, p);
      }
    }
  }

  lemma SpansAfterWiden(h: Nodes, root: Addr, ts: map<Addr, Span>, g: Family, a: Addr, i: nat, p: Span, b: Addr)
    requires TreeShape(h, root, ts, g)
    requires a in h && b in h && i < |h[a].slots| && h[a].slots[i].Sub? && h[a].slots[i].a in h
    ensures var c := h[a].slots[i].a; var h' := h[c := h[c].(span := Unite(h[c].span, p))];
      var spans := SlotSpans(h, ts, h[b].slots);
      SlotSpans(h', ts, h'[b].slots) == if b == a then spans[i := Unite(spans[i], p)] else spans
  {
    var c := h[a].slots[i].a;
    var h' := h[c := h[c].(span := Unite(h[c].span, p))];
    assert NodeOk(h, root, ts, g, a) && SlotOk(h, root, ts, g, a, h[a].slots[i]) && NodeOk(h, root, ts, g, b);
    forall j | 0 <= j < |h[b].slots| && !(b == a && j == i)
      ensures SlotSpan(h', ts, h[b].slots[j]) == SlotSpan(h, ts, h[b].slots[j])
    {
      assert SlotOk(h, root, ts, g, b, h[b].slots[j]);
    }
  }

  // ----- adding a terminal -----

  function InsertAt(s: seq<Slot>, i: nat, x: Slot): seq<Slot>
    requires i <= |s|
  {
    s[..i] + [x] + s[i..]
  }

  /** A new terminal in a node with a free slot: the later slots shift right. */
  lemma AddLeaf(h: Nodes, root: Addr, ts: map<Addr, Span>, g: Family, a: Addr, i: nat, t: Addr, p: Span)
    requires TreeShape(h, root, ts, g) && Full(h, root, ts) && Hulls(h, ts, {a}, p) && p.count > 0
    requires a in h && i <= |h[a].slots| < CARDINALITY && t !in ts
    ensures var h' := h[a := h[a].(slots := InsertAt(h[a].slots, i, Term(t)))]; var ts' := ts[t := p];
      && TreeShape(h', root, ts', g.(home := g.home[t := a])) && Full(h', root, ts') && Hulls(h', ts', {}, NO_SPAN)
  {
    var h' := h[a := h[a].(slots := InsertAt(h[a].slots, i, Term(t)))];
    var ts' := ts[t := p];
    AddLeafShape(h, root, ts, g, a, i, t, p);
    forall b | b in h'
      ensures h'[b].span == HullOf(h', ts', b)
    {
      assert h[b].span == if b == a then Unite(HullOf(h, ts, b), p) else HullOf(h, ts, b);
      AddLeafHull(h, root, ts, g, a, i, t, p, b);
    }
  }

  lemma AddLeafHull(h: Nodes, root: Addr, ts: map<Addr, Span>, g: Family, a: Addr, i: nat, t: Addr, p: Span, b: Addr)
    requires TreeShape(h, root, ts, g) && Full(h, root, ts) && p.count > 0
    requires a in h && b in h && i <= |h[a].slots| < CARDINALITY && t !in ts
    ensures var h' := h[a := h[a].(slots := InsertAt(h[a].slots, i, Term(t)))];
      HullOf(h', ts[t := p], b) == if b == a then Unite(HullOf(h, ts, b), p) else HullOf(h, ts, b)
  {
    var h' := h[a := h[a].(slots := InsertAt(h[a].slots, i, Term(t)))];
    var ts' := ts[t := p];
    assert NodeOk(h, root, ts, g, b);
    forall j | 0 <= j < |h[b].slots|
      ensures SlotSpan(h', ts', h[b].slots[j]) == SlotSpan(h, ts, h[b].slots[j])
    {
      assert SlotOk(h, root, ts, g, b, h[b].slots[j]);
    }
    assert SlotSpans(h', ts', h[b].slots) == SlotSpans(h, ts, h[b].slots);
    if b == a {
      SlotsAreFull(h, root, ts, g, a);
      HullInsert(SlotSpans(h, ts, h[b].slots), i, p);
      SpansInsert(h', ts', h[a].slots, i, Term(t));
    }
  }

  lemma AddLeafShape(h: Nodes, root: Addr, ts: map<Addr, Span>, g: Family, a: Addr, i: nat, t: Addr, p: Span)
    requires TreeShape(h, root, ts, g) && a in h && i <= |h[a].slots| < CARDINALITY && t !in ts
    ensures TreeShape(h[a := h[a].(slots := InsertAt(h[a].slots, i, Term(t)))], root, ts[t := p], g.(home := g.home[t := a]))
  {
    hide NodeOk, InsertAt;
    var h' := h[a := h[a].(slots := InsertAt(h[a].slots, i, Term(t)))];
    InsertKeeps(h[a].slots, i, Term(t));
    forall b | b in h'
      ensures NodeOk(h', root, ts[t := p], g.(home := g.home[t := a]), b)
    {
      AddLeafNode(h, root, ts, g, a, i, t, p, b);
    }
  }

  lemma AddLeafNode(h: Nodes, root: Addr, ts: map<Addr, Span>, g: Family, a: Addr, i: nat, t: Addr, p: Span, b: Addr)
    requires TreeShape(h, root, ts, g) && a in h && b in h && i <= |h[a].slots| < CARDINALITY && t !in ts
    ensures NodeOk(h[a := h[a].(slots := InsertAt(h[a].slots, i, Term(t)))], root, ts[t := p], g.(home := g.home[t := a]), b)
  {
    var h' := h[a := h[a].(slots := InsertAt(h[a].slots, i, Term(t)))];
    var ts', g' := ts[t := p], g.(home := g.home[t := a]);
    assert NodeOk(h, root, ts, g, b);
    forall j | 0 <= j < |h'[b].slots|
      ensures SlotOk(h', root, ts', g', b, h'[b].slots[j])
    {
      if b != a {
        assert SlotOk(h, root, ts, g, b, h[b].slots[j]);
      } else if j != i {
        assert SlotOk(h, root, ts, g, b, h[b].slots[if j < i then j else j - 1]);
      }
    }
  }

  lemma SpansInsert(h: Nodes, ts: map<Addr, Span>, slots: seq<Slot>, i: nat, x: Slot)
    requires i <= |slots|
    ensures var spans := SlotSpans(h, ts, slots);
      SlotSpans(h, ts, InsertAt(slots, i, x)) == spans[..i] + [SlotSpan(h, ts, x)] + spans[i..]
  {
  }

  lemma InsertKeeps(s: seq<Slot>, i: nat, x: Slot)
    requires i <= |s|
    ensures forall y :: y in InsertAt(s, i, x) <==> y in s || y == x
  {
    assert s == s[..i] + s[i..];
  }

  // ----- putting a new node between a node and one of its slots -----

  function Pair(newFirst: bool, t: Addr, s: Slot): seq<Slot>
  {
    if newFirst then [Term(t), s] else [s, Term(t)]
  }

  /** Slot `i` of node `a` now refers to a new node `n`, which holds what was there and a new terminal. */
  function SplitNodes(h: Nodes, ts: map<Addr, Span>, a: Addr, i: nat, n: Addr, t: Addr, p: Span, newFirst: bool): Nodes
    requires a in h && i < |h[a].slots|
  {
    var s := h[a].slots[i];
    h[a := h[a].(slots := h[a].slots[i := Sub(n)])][n := Index(Unite(SlotSpan(h, ts, s), p), Pair(newFirst, t, s))]
  }

  ghost function SplitFamily(g: Family, a: Addr, n: Addr, t: Addr, s: Slot): Family
  {
    Family((if s.Term? then g.home[s.t := n] else g.home)[t := n],
           (if s.Sub? then g.up[s.a := n] else g.up)[n := a],
           (map x | x in g.below :: if x == a || a in g.below[x] then g.below[x] + {n} else g.below[x])
             [n := if s.Sub? && s.a in g.below then g.below[s.a] + {s.a} else {}])
  }

  lemma SplitSlot(h: Nodes, root: Addr, ts: map<Addr, Span>, g: Family, a: Addr, i: nat, n: Addr, t: Addr, p: Span, newFirst: bool)
    requires TreeShape(h, root, ts, g) && Full(h, root, ts) && Hulls(h, ts, {a}, p) && p.count > 0
    requires a in h && i < |h[a].slots| && n !in h && t !in ts
    ensures var h' := SplitNodes(h, ts, a, i, n, t, p, newFirst); var ts' := ts[t := p];
      TreeShape(h', root, ts', SplitFamily(g, a, n, t, h[a].slots[i])) && Full(h', root, ts') && Hulls(h', ts', {}, NO_SPAN)
  {
    hide TreeShape, SplitFamily;
    var h' := SplitNodes(h, ts, a, i, n, t, p, newFirst);
    var ts' := ts[t := p];
    SplitShape(h, root, ts, g, a, i, n, t, p, newFirst);
    SlotsAreFull(h, root, ts, g, a);
    assert SlotSpans(h, ts, h[a].slots)[i].count > 0;
    forall b | b in h'
      ensures h'[b].span == HullOf(h', ts', b)
    {
      if b == n {
        SplitNewHull(h, root, ts, g, a, i, n, t, p, newFirst);
      } else {
        assert h[b].span == if b == a then Unite(HullOf(h, ts, b), p) else HullOf(h, ts, b);
        SplitHull(h, root, ts, g, a, i, n, t, p, newFirst, b);
      }
    }
  }

  lemma SplitNewHull(h: Nodes, root: Addr, ts: map<Addr, Span>, g: Family, a: Addr, i: nat, n: Addr, t: Addr, p: Span, newFirst: bool)
    requires TreeShape(h, root, ts, g) && Full(h, root, ts) && p.count > 0
    requires a in h && i < |h[a].slots| && n !in h && t !in ts
    ensures var h' := SplitNodes(h, ts, a, i, n, t, p, newFirst); h'[n].span == HullOf(h', ts[t := p], n)
  {
    var h' := SplitNodes(h, ts, a, i, n, t, p, newFirst);
    var s := h[a].slots[i];
    assert NodeOk(h, root, ts, g, a) && SlotOk(h, root, ts, g, a, s);
    var q := SlotSpan(h, ts, s);
    assert SlotSpan(h', ts[t := p], s) == q;
    SlotsAreFull(h, root, ts, g, a);
    assert SlotSpans(h, ts, h[a].slots)[i].count > 0;
    var spans := SlotSpans(h', ts[t := p], h'[n].slots);
    assert spans == if newFirst then [p, q] else [q, p];
    HullOfTwo(spans[0], spans[1]);
    UniteCommutes(p, q);
  }

  lemma HullOfTwo(a: Span, b: Span)
    ensures Hull([a, b]) == Unite(a, b) || a.count == 0
  {
    assert [a, b][..1] == [a] && [a][..0] == [];
    assert Hull([a]) == Unite(Hull([]), a);
  }

  lemma UniteCommutes(a: Span, b: Span)
    requires a.count > 0 && b.count > 0
    ensures Unite(a, b) == Unite(b, a)
  {
  }

  lemma SplitHull(h: Nodes, root: Addr, ts: map<Addr, Span>, g: Family, a: Addr, i: nat, n: Addr, t: Addr, p: Span, newFirst: bool,
                  b: Addr)
    requires TreeShape(h, root, ts, g) && Full(h, root, ts) && p.count > 0
    requires a in h && b in h && i < |h[a].slots| && n !in h && t !in ts
    ensures var h' := SplitNodes(h, ts, a, i, n, t, p, newFirst);
      HullOf(h', ts[t := p], b) == if b == a then Unite(HullOf(h, ts, b), p) else HullOf(h, ts, b)
  {
    var h' := SplitNodes(h, ts, a, i, n, t, p, newFirst);
    var ts' := ts[t := p];
    assert NodeOk(h, root, ts, g, b);
    forall j | 0 <= j < |h[b].slots|
      ensures SlotSpan(h', ts', h[b].slots[j]) == SlotSpan(h, ts, h[b].slots[j])
    {
      assert SlotOk(h, root, ts, g, b, h[b].slots[j]);
    }
    var spans := SlotSpans(h, ts, h[b].slots);
    if b == a {
      SlotsAreFull(h, root, ts, g, a);
      HullWiden(spans, i, p);
      assert SlotSpans(h', ts', h'[b].slots) == spans[i := Unite(spans[i], p)];
    } else {
      assert SlotSpans(h', ts', h'[b].slots) == spans;
    }
  }

  lemma SplitShape(h: Nodes, root: Addr, ts: map<Addr, Span>, g: Family, a: Addr, i: nat, n: Addr, t: Addr, p: Span, newFirst: bool)
    requires TreeShape(h, root, ts, g) && a in h && i < |h[a].slots| && n !in h && t !in ts
    ensures TreeShape(SplitNodes(h, ts, a, i, n, t, p, newFirst), root, ts[t := p], SplitFamily(g, a, n, t, h[a].slots[i]))
  {
    hide NodeOk, SlotSpan, SplitFamily, SplitNodes;
    SplitAllKeys(h, root, ts, g, a, i, n, t, p, newFirst);
    var h' := SplitNodes(h, ts, a, i, n, t, p, newFirst);
    var ts', g' := ts[t := p], SplitFamily(g, a, n, t, h[a].slots[i]);
    forall b | b in h'
      ensures NodeOk(h', root, ts', g', b)
    {
      if b == n {
        SplitNewNode(h, root, ts, g, a, i, n, t, p, newFirst);
      } else {
        SplitNode(h, root, ts, g, a, i, n, t, p, newFirst, b);
      }
    }
    forall u | u in ts'
      ensures g'.home[u] in h' && Term(u) in h'[g'.home[u]].slots
    {
      SplitHome(h, root, ts, g, a, i, n, t, p, newFirst, u);
    }
    forall c | c in h' && c != root
      ensures g'.up[c] in h' && Sub(c) in h'[g'.up[c]].slots
    {
      SplitUp(h, root, ts, g, a, i, n, t, p, newFirst, c);
    }
  }

  lemma SplitKeys(h: Nodes, root: Addr, ts: map<Addr, Span>, g: Family, a: Addr, i: nat)
    requires TreeShape(h, root, ts, g) && a in h && i < |h[a].slots|
    ensures match h[a].slots[i] case Term(u) => u in ts && u in g.home case Sub(c) => c in h && c in g.up && c != root
  {
    assert NodeOk(h, root, ts, g, a) && SlotOk(h, root, ts, g, a, h[a].slots[i]);
  }

  lemma SplitAllKeys(h: Nodes, root: Addr, ts: map<Addr, Span>, g: Family, a: Addr, i: nat, n: Addr, t: Addr, p: Span,
                     newFirst: bool)
    requires TreeShape(h, root, ts, g) && a in h && i < |h[a].slots| && n !in h && t !in ts
    ensures var h' := SplitNodes(h, ts, a, i, n, t, p, newFirst); var g' := SplitFamily(g, a, n, t, h[a].slots[i]);
      && h'.Keys == h.Keys + {n} == g'.below.Keys && g'.home.Keys == ts.Keys + {t} && g'.up.Keys == h'.Keys - {root}
  {
    SplitKeys(h, root, ts, g, a, i);
    SplitFamilyKeys(g, a, n, t, h[a].slots[i]);
    hide NodeOk, SlotOk, SplitFamily, Unite, Pair;
  }

  lemma SplitFamilyKeys(g: Family, a: Addr, n: Addr, t: Addr, s: Slot)
    requires s.Term? ==> s.t in g.home
    requires s.Sub? ==> s.a in g.up
    ensures var g' := SplitFamily(g, a, n, t, s);
      g'.home.Keys == g.home.Keys + {t} && g'.up.Keys == g.up.Keys + {n} && g'.below.Keys == g.below.Keys + {n}
  {
  }

  lemma SplitHome(h: Nodes, root: Addr, ts: map<Addr, Span>, g: Family, a: Addr, i: nat, n: Addr, t: Addr, p: Span, newFirst: bool,
                  u: Addr)
    requires TreeShape(h, root, ts, g) && a in h && i < |h[a].slots| && n !in h && t !in ts && (u in ts || u == t)
    ensures var h' := SplitNodes(h, ts, a, i, n, t, p, newFirst); var g' := SplitFamily(g, a, n, t, h[a].slots[i]);
      u in g'.home && g'.home[u] in h' && Term(u) in h'[g'.home[u]].slots
  {
    if u != t && g.home[u] == a && Term(u) != h[a].slots[i] {
      SlotStays(h[a].slots, i, Sub(n), Term(u));
    }
  }

  lemma SplitUp(h: Nodes, root: Addr, ts: map<Addr, Span>, g: Family, a: Addr, i: nat, n: Addr, t: Addr, p: Span, newFirst: bool,
                c: Addr)
    requires TreeShape(h, root, ts, g) && a in h && i < |h[a].slots| && n !in h && t !in ts && (c in h || c == n) && c != root
    ensures var h' := SplitNodes(h, ts, a, i, n, t, p, newFirst); var g' := SplitFamily(g, a, n, t, h[a].slots[i]);
      c in g'.up && g'.up[c] in h' && Sub(c) in h'[g'.up[c]].slots
  {
    if c == n {
      assert h[a].slots[i := Sub(n)][i] == Sub(n);
    } else if g.up[c] == a && Sub(c) != h[a].slots[i] {
      SlotStays(h[a].slots, i, Sub(n), Sub(c));
    }
  }

  lemma SlotStays(slots: seq<Slot>, i: nat, x: Slot, y: Slot)
    requires i < |slots| && y in slots && y != slots[i]
    ensures y in slots[i := x]
  {
    var j :| 0 <= j < |slots| && slots[j] == y;
    assert slots[i := x][j] == y;
  }

  lemma SplitNewNode(h: Nodes, root: Addr, ts: map<Addr, Span>, g: Family, a: Addr, i: nat, n: Addr, t: Addr, p: Span, newFirst: bool)
    requires TreeShape(h, root, ts, g) && a in h && i < |h[a].slots| && n !in h && t !in ts
    ensures NodeOk(SplitNodes(h, ts, a, i, n, t, p, newFirst), root, ts[t := p], SplitFamily(g, a, n, t, h[a].slots[i]), n)
  {
    var h' := SplitNodes(h, ts, a, i, n, t, p, newFirst);
    var ts', g' := ts[t := p], SplitFamily(g, a, n, t, h[a].slots[i]);
    var s := h[a].slots[i];
    assert NodeOk(h, root, ts, g, a) && SlotOk(h, root, ts, g, a, s);
    assert SlotOk(h', root, ts', g', n, Term(t));
    if s.Sub? {
      assert NodeOk(h, root, ts, g, s.a);
    }
    assert SlotOk(h', root, ts', g', n, s);
  }

  lemma SplitNode(h: Nodes, root: Addr, ts: map<Addr, Span>, g: Family, a: Addr, i: nat, n: Addr, t: Addr, p: Span, newFirst: bool,
                  b: Addr)
    requires TreeShape(h, root, ts, g) && a in h && b in h && i < |h[a].slots| && n !in h && t !in ts
    ensures NodeOk(SplitNodes(h, ts, a, i, n, t, p, newFirst), root, ts[t := p], SplitFamily(g, a, n, t, h[a].slots[i]), b)
  {
    hide SlotOk;
    var h' := SplitNodes(h, ts, a, i, n, t, p, newFirst);
    var ts', g' := ts[t := p], SplitFamily(g, a, n, t, h[a].slots[i]);
    assert NodeOk(h, root, ts, g, b);
    SplitKeys(h, root, ts, g, a, i);
    forall j | 0 <= j < |h'[b].slots|
      ensures SlotOk(h', root, ts', g', b, h'[b].slots[j])
    {
      SplitSlotOk(h, root, ts, g, a, i, n, t, p, newFirst, b, j);
    }
    NewSlotDistinct(h, root, ts, g, a, i, n, b);
    SplitBelow(h, root, ts, g, a, i, n, t, b);
  }

  lemma SplitBelow(h: Nodes, root: Addr, ts: map<Addr, Span>, g: Family, a: Addr, i: nat, n: Addr, t: Addr, b: Addr)
    requires TreeShape(h, root, ts, g) && a in h && b in h && i < |h[a].slots| && n !in h
    ensures var g' := SplitFamily(g, a, n, t, h[a].slots[i]);
      && b in g'.below && b !in g'.below[b]
      && forall x {:trigger x in g'.below[b]} | x in g'.below[b] :: x in g'.up && (g'.up[x] == b || g'.up[x] in g'.below[b])
  {
    var s, g' := h[a].slots[i], SplitFamily(g, a, n, t, h[a].slots[i]);
    assert NodeOk(h, root, ts, g, a) && NodeOk(h, root, ts, g, b) && SlotOk(h, root, ts, g, a, s);
    forall x | x in g'.below[b]
      ensures x in g'.up && (g'.up[x] == b || g'.up[x] in g'.below[b])
    {
      assert x != n ==> x in g.below[b];
    }
  }

  /** A new node's slot differs from all slots there are. */
  lemma NewSlotDistinct(h: Nodes, root: Addr, ts: map<Addr, Span>, g: Family, a: Addr, i: nat, n: Addr, b: Addr)
    requires TreeShape(h, root, ts, g) && a in h && b in h && i < |h[a].slots| && n !in h
    ensures Distinct(h[a].slots[i := Sub(n)]) && Distinct(h[b].slots)
  {
    assert NodeOk(h, root, ts, g, a) && NodeOk(h, root, ts, g, b);
    forall j | 0 <= j < |h[a].slots|
      ensures h[a].slots[j] != Sub(n)
    {
      assert SlotOk(h, root, ts, g, a, h[a].slots[j]);
    }
  }

  lemma SplitSlotOk(h: Nodes, root: Addr, ts: map<Addr, Span>, g: Family, a: Addr, i: nat, n: Addr, t: Addr, p: Span, newFirst: bool,
                    b: Addr, j: nat)
    requires TreeShape(h, root, ts, g) && a in h && b in h && i < |h[a].slots| && n !in h && t !in ts && j < |h[b].slots|
    ensures var h' := SplitNodes(h, ts, a, i, n, t, p, newFirst);
      SlotOk(h', root, ts[t := p], SplitFamily(g, a, n, t, h[a].slots[i]), b, h'[b].slots[j])
  {
    assert NodeOk(h, root, ts, g, a) && SlotOk(h, root, ts, g, a, h[a].slots[i]);
    assert NodeOk(h, root, ts, g, b) && SlotOk(h, root, ts, g, b, h[b].slots[j]);
    hide SplitFamily, Unite, Pair;
    if b == a && j == i {
      SplitNewSlot(h, root, ts, g, a, h[a].slots[i], n, t, p, SplitNodes(h, ts, a, i, n, t, p, newFirst));
    } else {
      SplitKeepsSlot(h, root, ts, g, a, h[a].slots[i], n, t, p, SplitNodes(h, ts, a, i, n, t, p, newFirst), b, h[b].slots[j]);
    }
  }

  lemma SplitNewSlot(h: Nodes, root: Addr, ts: map<Addr, Span>, g: Family, a: Addr, moved: Slot, n: Addr, t: Addr, p: Span,
                     h': Nodes)
    requires SlotOk(h, root, ts, g, a, moved) && g.below.Keys == h.Keys && a in h && n !in h && n in h' && root in h
    ensures SlotOk(h', root, ts[t := p], SplitFamily(g, a, n, t, moved), a, Sub(n))
  {
  }

  /** Only the slot that moves below the new node gets another parent. */
  lemma SplitKeepsSlot(h: Nodes, root: Addr, ts: map<Addr, Span>, g: Family, a: Addr, moved: Slot, n: Addr, t: Addr, p: Span,
                       h': Nodes, b: Addr, y: Slot)
    requires SlotOk(h, root, ts, g, a, moved) && SlotOk(h, root, ts, g, b, y) && y != moved
    requires g.below.Keys == h.Keys <= h'.Keys && b in h && n !in h && t !in ts
    ensures SlotOk(h', root, ts[t := p], SplitFamily(g, a, n, t, moved), b, y)
  {
  }

  // ----- the other steps of `add_index` and `erase` -----

  /** A span that equals one already there widens nothing. */
  lemma NothingWider(h: Nodes, root: Addr, ts: map<Addr, Span>, g: Family, a: Addr, i: nat)
    requires TreeShape(h, root, ts, g) && Full(h, root, ts) && a in h && i < |h[a].slots|
    requires Hulls(h, ts, {a}, SlotSpan(h, ts, h[a].slots[i]))
    ensures Hulls(h, ts, {}, NO_SPAN)
  {
    SlotsAreFull(h, root, ts, g, a);
    HullAbsorbs(SlotSpans(h, ts, h[a].slots), i);
    forall b | b in h
      ensures h[b].span == HullOf(h, ts, b)
    {
      assert h[b].span == if b == a then Unite(HullOf(h, ts, b), SlotSpan(h, ts, h[a].slots[i])) else HullOf(h, ts, b);
    }
  }

  function RemoveAt(s: seq<Slot>, i: nat): (r: seq<Slot>)
    requires i < |s|
    ensures |r| == |s| - 1
  {
    s[..i] + s[i + 1..]
  }

  lemma RemoveKeeps(s: seq<Slot>, i: nat, y: Slot)
    requires i < |s| && Distinct(s)
    ensures y in RemoveAt(s, i) <==> y in s && y != s[i]
    ensures Distinct(RemoveAt(s, i))
  {
    var r := RemoveAt(s, i);
    if y in s && y != s[i] {
      var j :| 0 <= j < |s| && s[j] == y;
      assert r[if j < i then j else j - 1] == y;
    }
    assert forall j | 0 <= j < |r| :: r[j] == s[if j < i then j else j + 1];
  }

  /** All recorded hulls are exact but those in `loose`, the path that an erase has still to go up. */
  ghost predicate HullsBelow(h: Nodes, ts: map<Addr, Span>, loose: set<Addr>)
  {
    forall a {:trigger HullOf(h, ts, a)} | a in h && a !in loose :: h[a].span == HullOf(h, ts, a)
  }

  /** As `Full`, but node `top` may have lost its last slot. */
  ghost predicate FullBut(h: Nodes, root: Addr, ts: map<Addr, Span>, top: Addr)
  {
    && (forall t {:trigger ts[t]} | t in ts :: ts[t].count > 0)
    && (forall a {:trigger h[a]} | a in h && a != root :: (a == top || h[a].slots != []) && h[a].span.count > 0)
  }

  /** Taking terminal `t` out of its slot. */
  lemma DropLeaf(h: Nodes, root: Addr, ts: map<Addr, Span>, g: Family, a: Addr, i: nat, t: Addr, loose: set<Addr>)
    requires TreeShape(h, root, ts, g) && a in h && i < |h[a].slots| && h[a].slots[i] == Term(t) && a in loose
    requires HullsBelow(h, ts, loose) && Full(h, root, ts)
    ensures var h' := h[a := h[a].(slots := RemoveAt(h[a].slots, i))]; var ts' := ts - {t};
      TreeShape(h', root, ts', g.(home := g.home - {t})) && HullsBelow(h', ts', loose) && FullBut(h', root, ts', a)
  {
    hide TreeShape, HullOf;
    var h' := h[a := h[a].(slots := RemoveAt(h[a].slots, i))];
    DropLeafShape(h, root, ts, g, a, i, t);
    forall b | b in h' && b !in loose
      ensures h'[b].span == HullOf(h', ts - {t}, b)
    {
      assert h[b].span == HullOf(h, ts, b);
      DropLeafSpans(h, root, ts, g, a, i, t, b);
    }
  }

  lemma DropLeafShape(h: Nodes, root: Addr, ts: map<Addr, Span>, g: Family, a: Addr, i: nat, t: Addr)
    requires TreeShape(h, root, ts, g) && a in h && i < |h[a].slots| && h[a].slots[i] == Term(t)
    ensures TreeShape(h[a := h[a].(slots := RemoveAt(h[a].slots, i))], root, ts - {t}, g.(home := g.home - {t}))
  {
    hide NodeOk;
    var slots := RemoveAt(h[a].slots, i);
    var h' := h[a := h[a].(slots := slots)];
    AllDistinct(h, root, ts, g, a);
    forall b | b in h'
      ensures NodeOk(h', root, ts - {t}, g.(home := g.home - {t}), b)
    {
      DropLeafNode(h, root, ts, g, a, i, t, b);
    }
    OthersStay(h[a].slots, i);
  }

  lemma AllDistinct(h: Nodes, root: Addr, ts: map<Addr, Span>, g: Family, a: Addr)
    requires TreeShape(h, root, ts, g) && a in h
    ensures Distinct(h[a].slots)
  {
    assert NodeOk(h, root, ts, g, a);
  }

  lemma DropLeafNode(h: Nodes, root: Addr, ts: map<Addr, Span>, g: Family, a: Addr, i: nat, t: Addr, b: Addr)
    requires TreeShape(h, root, ts, g) && a in h && b in h && i < |h[a].slots| && h[a].slots[i] == Term(t)
    ensures NodeOk(h[a := h[a].(slots := RemoveAt(h[a].slots, i))], root, ts - {t}, g.(home := g.home - {t}), b)
  {
    var h' := h[a := h[a].(slots := RemoveAt(h[a].slots, i))];
    assert NodeOk(h, root, ts, g, a) && NodeOk(h, root, ts, g, b) && SlotOk(h, root, ts, g, a, h[a].slots[i]);
    RemoveKeeps(h[a].slots, i, Term(t));
    forall j | 0 <= j < |h'[b].slots|
      ensures SlotOk(h', root, ts - {t}, g.(home := g.home - {t}), b, h'[b].slots[j])
    {
      assert SlotOk(h, root, ts, g, b, h[b].slots[if b == a && j >= i then j + 1 else j]);
    }
  }

  lemma DropLeafSpans(h: Nodes, root: Addr, ts: map<Addr, Span>, g: Family, a: Addr, i: nat, t: Addr, b: Addr)
    requires TreeShape(h, root, ts, g) && a in h && b in h && i < |h[a].slots| && h[a].slots[i] == Term(t) && b != a
    ensures var h' := h[a := h[a].(slots := RemoveAt(h[a].slots, i))]; HullOf(h', ts - {t}, b) == HullOf(h, ts, b)
  {
    var h' := h[a := h[a].(slots := RemoveAt(h[a].slots, i))];
    assert NodeOk(h, root, ts, g, a) && NodeOk(h, root, ts, g, b) && SlotOk(h, root, ts, g, a, h[a].slots[i]);
    forall j | 0 <= j < |h[b].slots|
      ensures SlotSpan(h', ts - {t}, h[b].slots[j]) == SlotSpan(h, ts, h[b].slots[j])
    {
      assert SlotOk(h, root, ts, g, b, h[b].slots[j]);
    }
    assert SlotSpans(h', ts - {t}, h[b].slots) == SlotSpans(h, ts, h[b].slots);
  }

  // ----- taking an empty node out of its parent -----

  ghost function WithoutNode(g: Family, c: Addr): Family
  {
    Family(g.home, g.up - {c}, map x | x in g.below && x != c :: g.below[x] - {c})
  }

  lemma DropSub(h: Nodes, root: Addr, ts: map<Addr, Span>, g: Family, a: Addr, i: nat, c: Addr, loose: set<Addr>)
    requires TreeShape(h, root, ts, g) && a in h && i < |h[a].slots| && h[a].slots[i] == Sub(c) && a in loose
    requires c in h && h[c].slots == [] && HullsBelow(h, ts, loose + {c}) && FullBut(h, root, ts, c)
    ensures c != a && c != root
    ensures var h' := (h - {c})[a := h[a].(slots := RemoveAt(h[a].slots, i))];
      TreeShape(h', root, ts, WithoutNode(g, c)) && HullsBelow(h', ts, loose) && FullBut(h', root, ts, a)
  {
    hide TreeShape, HullOf;
    var h' := (h - {c})[a := h[a].(slots := RemoveAt(h[a].slots, i))];
    ChildApart(h, root, ts, g, a, i, c);
    DropSubShape(h, root, ts, g, a, i, c);
    forall b | b in h' && b !in loose
      ensures h'[b].span == HullOf(h', ts, b)
    {
      assert h[b].span == HullOf(h, ts, b);
      DropSubSpans(h, root, ts, g, a, i, c, b);
    }
  }

  lemma DropSubShape(h: Nodes, root: Addr, ts: map<Addr, Span>, g: Family, a: Addr, i: nat, c: Addr)
    requires TreeShape(h, root, ts, g) && a in h && i < |h[a].slots| && h[a].slots[i] == Sub(c)
    requires c in h && c != a && h[c].slots == []
    ensures TreeShape((h - {c})[a := h[a].(slots := RemoveAt(h[a].slots, i))], root, ts, WithoutNode(g, c))
  {
    hide NodeOk;
    var slots := RemoveAt(h[a].slots, i);
    var h' := (h - {c})[a := h[a].(slots := slots)];
    ChildApart(h, root, ts, g, a, i, c);
    forall b | b in h'
      ensures NodeOk(h', root, ts, WithoutNode(g, c), b)
    {
      DropSubNode(h, root, ts, g, a, i, c, b);
    }
    OthersStay(h[a].slots, i);
  }

  lemma OthersStay(s: seq<Slot>, i: nat)
    requires i < |s| && Distinct(s)
    ensures forall y | y in s && y != s[i] :: y in RemoveAt(s, i)
  {
    forall y | y in s && y != s[i]
      ensures y in RemoveAt(s, i)
    {
      RemoveKeeps(s, i, y);
    }
  }

  lemma ChildApart(h: Nodes, root: Addr, ts: map<Addr, Span>, g: Family, a: Addr, i: nat, c: Addr)
    requires TreeShape(h, root, ts, g) && a in h && i < |h[a].slots| && h[a].slots[i] == Sub(c)
    ensures c in h && c != a && c != root && g.up[c] == a && Distinct(h[a].slots) && g.below[c] < g.below[a]
  {
    assert NodeOk(h, root, ts, g, a) && SlotOk(h, root, ts, g, a, h[a].slots[i]) && NodeOk(h, root, ts, g, c);
  }

  lemma DropSubNode(h: Nodes, root: Addr, ts: map<Addr, Span>, g: Family, a: Addr, i: nat, c: Addr, b: Addr)
    requires TreeShape(h, root, ts, g) && a in h && i < |h[a].slots| && h[a].slots[i] == Sub(c)
    requires c in h && c != a && h[c].slots == [] && b in h && b != c
    ensures NodeOk((h - {c})[a := h[a].(slots := RemoveAt(h[a].slots, i))], root, ts, WithoutNode(g, c), b)
  {
    var h', g' := (h - {c})[a := h[a].(slots := RemoveAt(h[a].slots, i))], WithoutNode(g, c);
    ChildApart(h, root, ts, g, a, i, c);
    assert NodeOk(h, root, ts, g, b);
    RemoveKeeps(h[a].slots, i, Sub(c));
    forall j | 0 <= j < |h'[b].slots|
      ensures SlotOk(h', root, ts, g', b, h'[b].slots[j])
    {
      DropSubSlot(h, root, ts, g, a, i, c, b, j);
    }
    forall x | x in g'.below[b]
      ensures x in g'.up && (g'.up[x] == b || g'.up[x] in g'.below[b])
    {
      assert x in g.below[b];
      assert g.up[x] != c;
    }
  }

  lemma DropSubSlot(h: Nodes, root: Addr, ts: map<Addr, Span>, g: Family, a: Addr, i: nat, c: Addr, b: Addr, j: nat)
    requires TreeShape(h, root, ts, g) && a in h && i < |h[a].slots| && h[a].slots[i] == Sub(c)
    requires c in h && c != a && h[c].slots == [] && b in h && b != c
    requires var h' := (h - {c})[a := h[a].(slots := RemoveAt(h[a].slots, i))]; j < |h'[b].slots|
    ensures var h' := (h - {c})[a := h[a].(slots := RemoveAt(h[a].slots, i))];
      SlotOk(h', root, ts, WithoutNode(g, c), b, h'[b].slots[j])
  {
    var k := if b == a && j >= i then j + 1 else j;
    ChildApart(h, root, ts, g, a, i, c);
    assert NodeOk(h, root, ts, g, b) && SlotOk(h, root, ts, g, b, h[b].slots[k]);
    assert b == a ==> h[a].slots[k] != h[a].slots[i];
  }

  lemma DropSubSpans(h: Nodes, root: Addr, ts: map<Addr, Span>, g: Family, a: Addr, i: nat, c: Addr, b: Addr)
    requires TreeShape(h, root, ts, g) && a in h && i < |h[a].slots| && h[a].slots[i] == Sub(c)
    requires c in h && c != a && b in h && b != c && b != a
    ensures var h' := (h - {c})[a := h[a].(slots := RemoveAt(h[a].slots, i))]; HullOf(h', ts, b) == HullOf(h, ts, b)
  {
    var h' := (h - {c})[a := h[a].(slots := RemoveAt(h[a].slots, i))];
    ChildApart(h, root, ts, g, a, i, c);
    assert NodeOk(h, root, ts, g, b);
    forall j | 0 <= j < |h[b].slots|
      ensures SlotSpan(h', ts, h[b].slots[j]) == SlotSpan(h, ts, h[b].slots[j])
    {
      assert SlotOk(h, root, ts, g, b, h[b].slots[j]);
    }
    assert SlotSpans(h', ts, h[b].slots) == SlotSpans(h, ts, h[b].slots);
  }

  // ----- recomputing a hull on the way up -----

  lemma Tighten(h: Nodes, root: Addr, ts: map<Addr, Span>, g: Family, a: Addr, loose: set<Addr>)
    requires TreeShape(h, root, ts, g) && Full(h, root, ts) && HullsBelow(h, ts, loose) && a in h
    requires a == root || (a in g.up && g.up[a] in loose)
    ensures var h' := h[a := h[a].(span := HullOf(h, ts, a))];
      TreeShape(h', root, ts, g) && Full(h', root, ts) && HullsBelow(h', ts, loose - {a})
  {
    var h' := h[a := h[a].(span := HullOf(h, ts, a))];
    SameShape(h, h', root, ts, g);
    SlotsAreFull(h, root, ts, g, a);
    HullIsFull(SlotSpans(h, ts, h[a].slots));
    forall b | b in h' && b !in loose - {a}
      ensures h'[b].span == HullOf(h', ts, b)
    {
      assert b != a ==> h[b].span == HullOf(h, ts, b);
      HullElsewhere(h, root, ts, g, a, HullOf(h, ts, a), b);
    }
  }

  /** The span of a node matters to its parent only. */
  lemma HullElsewhere(h: Nodes, root: Addr, ts: map<Addr, Span>, g: Family, a: Addr, span: Span, b: Addr)
    requires TreeShape(h, root, ts, g) && a in h && b in h && (a == root || g.up[a] != b || b == a)
    ensures HullOf(h[a := h[a].(span := span)], ts, b) == HullOf(h, ts, b)
  {
    var h' := h[a := h[a].(span := span)];
    assert NodeOk(h, root, ts, g, b);
    forall j | 0 <= j < |h[b].slots|
      ensures SlotSpan(h', ts, h[b].slots[j]) == SlotSpan(h, ts, h[b].slots[j])
    {
      assert SlotOk(h, root, ts, g, b, h[b].slots[j]);
    }
    assert SlotSpans(h', ts, h[b].slots) == SlotSpans(h, ts, h[b].slots);
  }
}
