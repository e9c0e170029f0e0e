/** Half-open ranges of positions, their overlap and their hull. */
module Zones {
  datatype Span = Span(pos: int, count: nat)

  const NO_SPAN := Span(0, 0)

  function Right(a: Span): int
  {
    a.pos + a.count
  }

  predicate Overlapping(a: Span, b: Span)
  {
    Right(a) > b.pos && a.pos < Right(b)
  }

  /** `unite_zones`: the hull of two ranges; an empty range adds nothing. */
  function Unite(a: Span, b: Span): (u: Span)
    ensures a.count > 0 && b.count > 0 ==> Covers(u, a) && Covers(u, b) && u.count > 0
  {
    if a.count == 0 then b
    else if b.count == 0 then a
    else
      var p, r := if b.pos < a.pos then b.pos else a.pos, if Right(a) < Right(b) then Right(b) else Right(a);
      Span(p, r - p)
  }

  predicate Covers(a: Span, b: Span)
  {
    a.pos <= b.pos && Right(b) <= Right(a)
  }

  predicate InSpan(a: Span, x: int)
  {
    a.pos <= x < Right(a)
  }

  /** Two non-empty ranges overlap exactly if they share a position. */
  lemma OverlapIsShared(a: Span, b: Span)
    requires a.count > 0 && b.count > 0
    ensures Overlapping(a, b) <==> exists x :: InSpan(a, x) && InSpan(b, x)
  {
    if Overlapping(a, b) {
      var x := if a.pos < b.pos then b.pos else a.pos;
      assert InSpan(a, x) && InSpan(b, x);
    }
  }

  /** What covers an overlapping range overlaps as well. */
  lemma CoverOverlaps(b: Span, outer: Span, inner: Span)
    requires Covers(outer, inner) && Overlapping(b, inner)
    ensures Overlapping(b, outer)
  {
  }

  // ----- the hull of several ranges -----

  function Hull(s: seq<Span>): Span
  {
    if s == [] then NO_SPAN else Unite(Hull(s[..|s| - 1]), s[|s| - 1])
  }

  ghost predicate AllFull(s: seq<Span>)
  {
    forall i | 0 <= i < |s| :: s[i].count > 0
  }

  lemma UniteShuffles(a: Span, b: Span, c: Span)
    requires a == NO_SPAN || a.count > 0
    requires b.count > 0 && c.count > 0
    ensures Unite(Unite(a, b), c) == Unite(Unite(a, c), b) == Unite(a, Unite(b, c))
  {
  }

  lemma {:induction false} HullIsFull(s: seq<Span>)
    requires AllFull(s)
    ensures if s == [] then Hull(s) == NO_SPAN else Hull(s).count > 0
    ensures forall i | 0 <= i < |s| :: Covers(Hull(s), s[i])
  {
    if s != [] {
      HullIsFull(s[..|s| - 1]);
    }
  }

  /** The hull is the least cover: anything that covers all the ranges covers it. */
  lemma {:induction false} HullIsLeast(s: seq<Span>, u: Span)
    requires AllFull(s) && s != [] && forall i | 0 <= i < |s| :: Covers(u, s[i])
    ensures Covers(u, Hull(s))
  {
    var m := |s| - 1;
    if m > 0 {
      HullIsLeast(s[..m], u);
      HullIsFull(s[..m]);
    }
  }

  lemma {:induction false} HullInsert(s: seq<Span>, i: nat, p: Span)
    requires i <= |s| && AllFull(s) && p.count > 0
    ensures Hull(s[..i] + [p] + s[i..]) == Unite(Hull(s), p)
  {
    hide Unite;
    var t := s[..i] + [p] + s[i..];
    if i == |s| {
      assert t[..|s|] == s;
    } else {
      var m := |s| - 1;
      assert t[|t| - 1] == s[m];
      assert t[..|t| - 1] == s[..m][..i] + [p] + s[..m][i..];
      HullInsert(s[..m], i, p);
      HullIsFull(s[..m]);
      UniteShuffles(Hull(s[..m]), p, s[m]);
    }
  }

  lemma {:induction false} HullWiden(s: seq<Span>, i: nat, p: Span)
    requires i < |s| && AllFull(s) && p.count > 0
    ensures Hull(s[i := Unite(s[i], p)]) == Unite(Hull(s), p)
  {
    hide Unite;
    var m := |s| - 1;
    var t := s[i := Unite(s[i], p)];
    HullIsFull(s[..m]);
    if i == m {
      assert t[..m] == s[..m];
      UniteShuffles(Hull(s[..m]), s[m], p);
    } else {
      assert t[..m] == s[..m][i := Unite(s[..m][i], p)];
      HullWiden(s[..m], i, p);
      UniteShuffles(Hull(s[..m]), p, s[m]);
    }
  }

  /** A range that is one of them adds nothing to the hull. */
  lemma HullAbsorbs(s: seq<Span>, i: nat)
    requires i < |s| && AllFull(s)
    ensures Unite(Hull(s), s[i]) == Hull(s)
  {
    HullWiden(s, i, s[i]);
    assert s[i := Unite(s[i], s[i])] == s;
  }
}
