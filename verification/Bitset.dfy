/** A set of indices as the bits of an array of words. */
module Bitsets {
  import opened Bits
  import opened Common

  // ----- words with bits added, taken away or masked out -----

  predicate Single64(m: bv64)
  {
    m != 0 && m & (m - 1) == 0
  }

  predicate Below64(p: bv64, q: bv64)
  {
    p < q
  }

  /** Masks of the bits below a single bit, and up to it. */
  function LowMask(q: bv64): bv64
  {
    q - 1
  }

  function UpTo64(q: bv64): bv64
  {
    q | (q - 1)
  }

  function Or(x: bv64, q: bv64): bv64
  {
    x | q
  }

  function Not(x: bv64): bv64
  {
    !x
  }

  lemma SingleHalves(m: bv32)
    requires Single32(m)
    ensures Single64(Wide(m)) && Single64(Upper(m))
  {
  }

  lemma HalvesGrow(m: bv32, next: bv32)
    requires Doubles32(m, next) && Single32(m)
    ensures Below64(Wide(m), Wide(next)) && Below64(Upper(m), Upper(next))
  {
  }

  lemma MiddleGrows()
    ensures Below64(Wide(0x8000_0000), Upper(1))
  {
  }

  lemma MaskGrows(k: nat)
    requires k < 64
    ensures Single64(Mask64(k)) && (k < 63 ==> Below64(Mask64(k), Mask64(k + 1)))
  {
    hide Wide, Upper, Mask32, Mask64, Twice64, Single32, Single64, Doubles32, Below64;
    var j := if k < 32 then k else k - 32;
    Mask64Is(j);
    NextMask(j);
    SingleHalves(Mask32(j));
    if k == 31 {
      FirstMask();
      Mask64Is(0);
      MiddleGrows();
    } else if k < 63 {
      Mask64Is(j + 1);
      HalvesGrow(Mask32(j), Mask32(j + 1));
    }
  }

  lemma BelowTransitive(p: bv64, q: bv64, r: bv64)
    requires Below64(p, q) && Below64(q, r)
    ensures Below64(p, r)
  {
  }

  lemma {:induction false} MaskOrder(j: nat, k: nat)
    requires j < k < 64
    ensures Below64(Mask64(j), Mask64(k))
    decreases k - j
  {
    hide Mask64, Below64, Single64;
    MaskGrows(k - 1);
    if j < k - 1 {
      MaskOrder(j, k - 1);
      BelowTransitive(Mask64(j), Mask64(k - 1), Mask64(k));
    }
  }

  /** A single bit and the mask of another: all of it or nothing. */
  lemma LowerBit(p: bv64, q: bv64)
    requires Single64(p) && Single64(q) && Below64(p, q)
    ensures And(p, LowMask(q)) == p
  {
  }

  lemma HigherBit(p: bv64, q: bv64)
    requires Single64(p) && Single64(q) && Below64(q, p)
    ensures And(p, LowMask(q)) == 0
  {
    hide Single64, And, LowMask, Below64;
    LowMaskIsLess(p, q);
    NothingAbove(LowMask(q), p);
  }

  lemma LowMaskIsLess(p: bv64, q: bv64)
    requires Single64(q) && Below64(q, p)
    ensures Below64(LowMask(q), p)
  {
  }

  lemma NothingAbove(y: bv64, p: bv64)
    requires Single64(p) && Below64(y, p)
    ensures And(p, y) == 0
  {
  }

  lemma SameBit(q: bv64)
    requires Single64(q)
    ensures And(q, LowMask(q)) == 0
  {
  }

  lemma OtherBit(p: bv64, q: bv64)
    requires Single64(p) && Single64(q) && Below64(p, q)
    ensures And(p, q) == 0 && And(q, p) == 0
  {
  }

  lemma AndCommutes(x: bv64, y: bv64)
    ensures And(x, y) == And(y, x)
  {
  }

  lemma AndAssociates(x: bv64, y: bv64, z: bv64)
    ensures And(And(x, y), z) == And(x, And(y, z))
  {
  }

  lemma OrPast(x: bv64, m: bv64, p: bv64)
    requires And(p, m) == 0
    ensures And(Or(x, m), p) == And(x, p)
  {
  }

  lemma Regrouped(x: bv64, m: bv64, p: bv64)
    ensures And(And(x, m), p) == And(x, And(p, m))
  {
    hide And;
    AndAssociates(x, m, p);
    AndCommutes(m, p);
  }

  lemma NotMask(m: bv64, p: bv64)
    ensures And(p, m) == p ==> And(p, Not(m)) == 0
    ensures And(p, m) == 0 ==> And(p, Not(m)) == p
  {
  }

  lemma WithZero(p: bv64)
    ensures Or(0, p) == p == Or(p, 0) && And(p, p) == p && And(p, 0) == 0
  {
  }

  lemma ThroughMask(x: bv64, m: bv64, p: bv64)
    requires And(p, m) == p
    ensures And(And(x, m), p) == And(x, p) && And(And(x, Not(m)), p) == 0
  {
    hide And, Or, Not;
    Regrouped(x, m, p);
    NotMask(m, p);
    Regrouped(x, Not(m), p);
    WithZero(x);
  }

  lemma PastMask(x: bv64, m: bv64, p: bv64)
    requires And(p, m) == 0
    ensures And(And(x, m), p) == 0 && And(And(x, Not(m)), p) == And(x, p) == And(Or(x, m), p)
  {
    hide And, Or, Not;
    Regrouped(x, m, p);
    NotMask(m, p);
    Regrouped(x, Not(m), p);
    WithZero(x);
    OrPast(x, m, p);
  }

  lemma UpToMask(p: bv64, q: bv64)
    ensures And(p, UpTo64(q)) == Or(And(p, q), And(p, LowMask(q)))
  {
  }

  lemma BitAdded(x: bv64, q: bv64)
    requires Single64(q)
    ensures Has64(Or(x, q), q)
  {
  }

  lemma Apart(p: bv64, q: bv64)
    requires Below64(p, q)
    ensures p != q && !Below64(q, p) && !Below64(p, p) && !Below64(q, q)
  {
  }

  lemma NotBelowItself(q: bv64)
    ensures !Below64(q, q)
  {
  }

  /** What masking, setting and clearing do to a single bit. */
  lemma MaskedBit(x: bv64, p: bv64, q: bv64)
    requires Single64(p) && Single64(q) && (Below64(p, q) || p == q || Below64(q, p))
    ensures Has64(And(x, LowMask(q)), p) <==> Has64(x, p) && Below64(p, q)
    ensures Has64(And(x, Not(LowMask(q))), p) <==> Has64(x, p) && !Below64(p, q)
    ensures Has64(And(x, Not(UpTo64(q))), p) <==> Has64(x, p) && Below64(q, p)
    ensures Has64(Or(x, q), p) <==> Has64(x, p) || p == q
    ensures Has64(And(x, Not(q)), p) <==> Has64(x, p) && p != q
  {
    hide Single64, And, Or, Not, LowMask, UpTo64, Below64;
    UpToMask(p, q);
    WithZero(p);
    WithZero(0);
    if Below64(p, q) {
      Apart(p, q);
      LowerBit(p, q);
      OtherBit(p, q);
      ThroughMask(x, LowMask(q), p);
      ThroughMask(x, UpTo64(q), p);
      PastMask(x, q, p);
    } else if p == q {
      NotBelowItself(q);
      SameBit(q);
      PastMask(x, LowMask(q), p);
      ThroughMask(x, UpTo64(q), p);
      ThroughMask(x, q, p);
      BitAdded(x, q);
    } else {
      Apart(q, p);
      HigherBit(p, q);
      OtherBit(q, p);
      PastMask(x, LowMask(q), p);
      PastMask(x, UpTo64(q), p);
      PastMask(x, q, p);
    }
  }

  lemma MaskedBits(x: bv64, j: nat, k: nat)
    requires j < 64 && k < 64
    ensures Bit64(And(x, LowMask(Mask64(k))), j) <==> Bit64(x, j) && j < k
    ensures Bit64(And(x, Not(LowMask(Mask64(k)))), j) <==> Bit64(x, j) && j >= k
    ensures Bit64(And(x, Not(UpTo64(Mask64(k)))), j) <==> Bit64(x, j) && j > k
    ensures Bit64(Or(x, Mask64(k)), j) <==> Bit64(x, j) || j == k
    ensures Bit64(And(x, Not(Mask64(k))), j) <==> Bit64(x, j) && j != k
  {
    hide Mask64, Single64, Has64, And, Or, Not, LowMask, UpTo64, Below64;
    MaskGrows(j);
    MaskGrows(k);
    NotBelowItself(Mask64(k));
    if j < k {
      MaskOrder(j, k);
      Apart(Mask64(j), Mask64(k));
    } else if j > k {
      MaskOrder(k, j);
      Apart(Mask64(k), Mask64(j));
    }
    MaskedBit(x, Mask64(j), Mask64(k));
  }

  // ----- the set -----

  const BITS := 64

  /** Index `i` is in the set that the words represent. */
  predicate In(words: seq<bv64>, i: nat)
  {
    i / BITS < |words| && Bit64(words[i / BITS], i % BITS)
  }

  ghost function Set(words: seq<bv64>): set<nat>
  {
    set i: nat | i < BITS * |words| && In(words, i)
  }

  /** `r` is the least element from `from` on, if there is one. */
  ghost predicate LeastFrom(keys: set<nat>, from: nat, r: Option<nat>)
  {
    && (r.Some? ==> r.value in keys && from <= r.value && forall i | i in keys && from <= i :: r.value <= i)
    && (r.None? ==> forall i | i in keys :: i < from)
  }

  /** `r` is the greatest element before `to`, if there is one. */
  ghost predicate GreatestBefore(keys: set<nat>, to: nat, r: Option<nat>)
  {
    && (r.Some? ==> r.value in keys && r.value < to && forall i | i in keys && i < to :: i <= r.value)
    && (r.None? ==> forall i | i in keys :: i >= to)
  }

  /** Where an index is, relative to word `w`. */
  lemma WordOf(i: nat, w: nat)
    ensures i / BITS >= 0 && 0 <= i % BITS < BITS && i == BITS * (i / BITS) + i % BITS
    ensures i / BITS < w <==> i < BITS * w
    ensures i / BITS > w <==> i >= BITS * (w + 1)
  {
  }

  lemma InSet(words: seq<bv64>, i: nat)
    ensures i in Set(words) <==> In(words, i)
  {
    WordOf(i, |words|);
  }

  lemma IndexIn(words: seq<bv64>, w: nat, k: nat) returns (i: nat)
    requires w < |words| && k < BITS
    ensures i == BITS * w + k && i / BITS == w && i % BITS == k
    ensures In(words, i) <==> Bit64(words[w], k)
  {
    i := BITS * w + k;
  }

  lemma NoBitInZero64(k: nat)
    ensures !Bit64(0, k)
  {
  }

  /** The least element from `from` on, found in word `w` once the words before have none: its bits from `from` on are
      `x`. */
  lemma FoundUp(words: seq<bv64>, from: nat, w: nat, x: bv64)
    requires w < |words|
    requires forall k | 0 <= k < BITS :: Bit64(x, k) <==> Bit64(words[w], k) && BITS * w + k >= from
    requires forall i: nat | In(words, i) && i >= from :: i / BITS >= w
    ensures x != 0 ==> LeastFrom(Set(words), from, Some(Ctz64(x) + BITS * w))
    ensures x == 0 ==> forall i: nat | In(words, i) && i >= from :: i / BITS >= w + 1
  {
    hide Ctz64, Bit64, Set;
    if x != 0 {
      Ctz64IsLowest(x);
      var r := IndexIn(words, w, Ctz64(x));
      InSet(words, r);
      forall i: nat | i in Set(words) && i >= from
        ensures r <= i
      {
        InSet(words, i);
        WordOf(i, w);
      }
    } else {
      forall i: nat | In(words, i) && i >= from
        ensures i / BITS >= w + 1
      {
        WordOf(i, w);
        NoBitInZero64(i % BITS);
      }
    }
  }

  /** The greatest element before `to`, found going down. */
  lemma FoundDown(words: seq<bv64>, to: nat, w: nat, x: bv64)
    requires w < |words| && BITS * w <= to
    requires forall k | 0 <= k < BITS :: Bit64(x, k) <==> Bit64(words[w], k) && BITS * w + k < to
    requires forall i: nat | In(words, i) && i < to :: i / BITS <= w
    ensures x != 0 ==> Log64(x) < BITS && GreatestBefore(Set(words), to, Some(Log64(x) + BITS * w))
    ensures x == 0 ==> forall i: nat | In(words, i) && i < to :: i / BITS < w
  {
    hide Log64, Bit64, Set;
    if x != 0 {
      Log64IsHighest(x);
      var r := IndexIn(words, w, Log64(x));
      InSet(words, r);
      forall i: nat | i in Set(words) && i < to
        ensures i <= r
      {
        InSet(words, i);
        WordOf(i, w);
      }
    } else {
      forall i: nat | In(words, i) && i < to
        ensures i / BITS < w
      {
        WordOf(i, w);
        NoBitInZero64(i % BITS);
      }
    }
  }

  /** An array of any number of words. */
  class Bitset {
    const presence: array<bv64>

    ghost function Members(): set<nat>
      reads presence
    {
      Set(presence[..])
    }

    constructor (words: nat)
      ensures fresh(presence) && presence.Length == words && Members() == {}
    {
      presence := new bv64[words](_ => 0);
      new;
      forall i: nat
        ensures !In(presence[..], i)
      {
        NoBitInZero64(i % BITS);
      }
    }

    /** `first_set`. */
    method FirstSet() returns (r: Option<nat>)
      ensures LeastFrom(Members(), 0, r)
    {
      hide Bit64, Ctz64, Set;
      var i := 0;
      while i < presence.Length
        invariant 0 <= i <= presence.Length && forall j: nat | In(presence[..], j) && j >= 0 :: j / BITS >= i
      {
        FoundUp(presence[..], 0, i, presence[i]);
        if presence[i] != 0 {
          Ctz64IsLowest(presence[i]);
          return Some(Ctz64(presence[i]) + i * BITS);
        }
        i := i + 1;
      }
      NoWordLeft(presence[..], 0, i);
      return None;
    }

    /** The loop of `next_set` and `next_set_or_this`: in the first word only the bits that `mask` leaves count. */
    method Scan(start: nat, mask: bv64, ghost from: nat) returns (r: Option<nat>)
      requires BITS * start <= from <= BITS * (start + 1)
      requires forall x, k {:trigger Bit64(And(x, Not(mask)), k)} | 0 <= k < BITS ::
        Bit64(And(x, Not(mask)), k) <==> Bit64(x, k) && BITS * start + k >= from
      ensures LeastFrom(Members(), from, r)
    {
      hide Bit64, Ctz64, And, Not, Set;
      var i, m := start, mask;
      StartWord(presence[..], start, from);
      while i < presence.Length
        invariant start <= i && m == (if i == start then mask else 0)
        invariant forall j: nat | In(presence[..], j) && j >= from :: j / BITS >= i
      {
        var x := And(presence[i], Not(m));
        if i > start {
          NothingMasked(presence[i]);
        }
        if from < BITS * (i + 1) {
          FoundUp(presence[..], from, i, x);
        } else {
          BeyondWord(x, presence[..], from, i);
        }
        if x != 0 {
          Ctz64IsLowest(x);
          return Some(Ctz64(x) + i * BITS);
        }
        m := 0;
        i := i + 1;
      }
      NoWordLeft(presence[..], from, i);
      return None;
    }

    /** `next_set`: the least element above `prev`. */
    method NextSet(prev: nat) returns (r: Option<nat>)
      ensures LeastFrom(Members(), prev + 1, r)
    {
      hide Bit64, And, Not, UpTo64, Mask64, Set;
      WordOf(prev, 0);
      var mask := UpTo64(Mask64(prev % BITS));
      forall x, k | 0 <= k < BITS
        ensures Bit64(And(x, Not(mask)), k) <==> Bit64(x, k) && BITS * (prev / BITS) + k >= prev + 1
      {
        MaskedBits(x, k, prev % BITS);
      }
      r := Scan(prev / BITS, mask, prev + 1);
    }

    /** `next_set_or_this`: the least element from `prev` on. */
    method NextSetOrThis(prev: nat) returns (r: Option<nat>)
      ensures LeastFrom(Members(), prev, r)
    {
      hide Bit64, And, Not, LowMask, Mask64, Set;
      WordOf(prev, 0);
      var mask := LowMask(Mask64(prev % BITS));
      forall x, k | 0 <= k < BITS
        ensures Bit64(And(x, Not(mask)), k) <==> Bit64(x, k) && BITS * (prev / BITS) + k >= prev
      {
        MaskedBits(x, k, prev % BITS);
      }
      r := Scan(prev / BITS, mask, prev);
    }

    /** `prev_set`: the greatest element below `index`. */
    method PrevSet(index: nat) returns (r: Option<nat>)
      requires index < BITS * presence.Length
      ensures GreatestBefore(Members(), index, r)
    {
      hide Bit64, Log64, And, LowMask, Mask64, Set;
      WordOf(index, presence.Length);
      var mask := LowMask(Mask64(index % BITS));
      var i := index / BITS;
      forall j: nat | In(presence[..], j) && j < index
        ensures j / BITS <= i
      {
        WordOf(j, i);
        WordOf(index, i);
      }
      while i >= 0
        invariant -1 <= i <= index / BITS && (i < index / BITS ==> mask == Not(0))
        invariant i == index / BITS ==> mask == LowMask(Mask64(index % BITS))
        invariant forall j: nat | In(presence[..], j) && j < index :: j / BITS <= i
        decreases i + 1
      {
        var x := And(presence[i], mask);
        WordOf(index, i);
        forall k | 0 <= k < BITS
          ensures Bit64(x, k) <==> Bit64(presence[i], k) && BITS * i + k < index
        {
          if i == index / BITS {
            MaskedBits(presence[i], k, index % BITS);
          } else {
            NothingMasked(presence[i]);
          }
        }
        FoundDown(presence[..], index, i, x);
        if x != 0 {
          return Some(Log64(x) + i * BITS);
        }
        mask := Not(0);
        i := i - 1;
      }
      NoneBefore(presence[..], index);
      return None;
    }

    /** `last_set`. */
    method LastSet() returns (r: Option<nat>)
      ensures GreatestBefore(Members(), BITS * presence.Length, r)
    {
      hide Bit64, Log64, Set;
      var i := presence.Length;
      ghost var to := BITS * presence.Length;
      AllBefore(presence[..]);
      while i > 0
        invariant 0 <= i <= presence.Length && forall j: nat | In(presence[..], j) && j < to :: j / BITS <= i - 1
      {
        FoundDown(presence[..], to, i - 1, presence[i - 1]);
        if presence[i - 1] != 0 {
          return Some(Log64(presence[i - 1]) + (i - 1) * BITS);
        }
        i := i - 1;
      }
      NoneBefore(presence[..], to);
      return None;
    }

    method Get(index: nat) returns (b: bool)
      requires index < BITS * presence.Length
      ensures b <==> index in Members()
    {
      hide Set;
      WordOf(index, presence.Length);
      InSet(presence[..], index);
      return Bit64(presence[index / BITS], index % BITS);
    }

    method SetBit(index: nat)
      requires index < BITS * presence.Length
      modifies presence
      ensures Members() == old(Members()) + {index}
    {
      hide Or, Mask64, Set;
      WordOf(index, presence.Length);
      ghost var words := presence[..];
      OneBit(words, index);
      presence[index / BITS] := Or(presence[index / BITS], Mask64(index % BITS));
      assert presence[..] == words[index / BITS := Or(words[index / BITS], Mask64(index % BITS))];
    }

    method Clear(index: nat)
      requires index < BITS * presence.Length
      modifies presence
      ensures Members() == old(Members()) - {index}
    {
      hide And, Not, Mask64, Set;
      WordOf(index, presence.Length);
      ghost var words := presence[..];
      OneBit(words, index);
      presence[index / BITS] := And(presence[index / BITS], Not(Mask64(index % BITS)));
      assert presence[..] == words[index / BITS := And(words[index / BITS], Not(Mask64(index % BITS)))];
    }

    method Assign(index: nat, val: bool)
      requires index < BITS * presence.Length
      modifies presence
      ensures Members() == if val then old(Members()) + {index} else old(Members()) - {index}
    {
      if val {
        SetBit(index);
      } else {
        Clear(index);
      }
    }

    /** Iteration over the elements: `presence_begin` to `presence_end`. */
    method Elements() returns (found: seq<nat>)
      ensures (set i | i in found) == Members()
      ensures forall j, k | 0 <= j < k < |found| :: found[j] < found[k]
    {
      hide Set;
      found := [];
      ghost var from: nat := 0;
      var pos := FirstSet();
      MembersBelow(presence[..]);
      while pos.Some?
        invariant LeastFrom(Members(), from, pos)
        invariant forall i | i in found :: i in Members() && i < from
        invariant forall i | i in Members() && i < from :: i in found
        invariant forall j, k | 0 <= j < k < |found| :: found[j] < found[k]
        decreases BITS * presence.Length - from
      {
        assert forall j | 0 <= j < |found| :: found[j] in found;
        found := found + [pos.value];
        from := pos.value + 1;
        pos := NextSet(pos.value);
      }
    }
  }

  lemma MembersBelow(words: seq<bv64>)
    ensures forall i | i in Set(words) :: i < BITS * |words|
  {
  }

  /** Setting or clearing one bit of one word. */
  lemma OneBit(words: seq<bv64>, index: nat)
    requires index < BITS * |words|
    ensures index / BITS < |words| && index % BITS < 64
    ensures Set(words[index / BITS := Or(words[index / BITS], Mask64(index % BITS))]) == Set(words) + {index}
    ensures Set(words[index / BITS := And(words[index / BITS], Not(Mask64(index % BITS)))]) == Set(words) - {index}
  {
    hide Bit64, Or, And, Not, Mask64, Set;
    WordOf(index, |words|);
    var w1 := words[index / BITS := Or(words[index / BITS], Mask64(index % BITS))];
    var w2 := words[index / BITS := And(words[index / BITS], Not(Mask64(index % BITS)))];
    forall i: nat
      ensures i in Set(w1) <==> i in Set(words) || i == index
      ensures i in Set(w2) <==> i in Set(words) && i != index
    {
      WordOf(i, 0);
      InSet(words, i);
      InSet(w1, i);
      InSet(w2, i);
      MaskedBits(words[index / BITS], i % BITS, index % BITS);
    }
  }

  lemma NoWordLeft(words: seq<bv64>, from: nat, w: nat)
    requires w >= |words| && forall i: nat | In(words, i) && i >= from :: i / BITS >= w
    ensures LeastFrom(Set(words), from, None)
  {
  }

  lemma NoneBefore(words: seq<bv64>, to: nat)
    requires forall i: nat | In(words, i) && i < to :: i / BITS <= -1
    ensures GreatestBefore(Set(words), to, None)
  {
  }

  lemma AllBefore(words: seq<bv64>)
    ensures forall j: nat | In(words, j) && j < BITS * |words| :: j / BITS <= |words| - 1
  {
  }

  lemma StartWord(words: seq<bv64>, start: nat, from: nat)
    requires BITS * start <= from
    ensures forall i: nat | In(words, i) && i >= from :: i / BITS >= start
  {
    forall i: nat | In(words, i) && i >= from
      ensures i / BITS >= start
    {
      WordOf(i, start);
    }
  }

  /** The word that `next_set` starts in when `prev` is its last bit: all of it is masked out. */
  lemma BeyondWord(x: bv64, words: seq<bv64>, from: nat, w: nat)
    requires w < |words| && BITS * (w + 1) <= from
    requires forall k | 0 <= k < BITS :: !Bit64(x, k)
    ensures x == 0 && forall i: nat | In(words, i) && i >= from :: i / BITS >= w + 1
  {
    hide Bit64, Ctz64;
    if x != 0 {
      Ctz64IsLowest(x);
    }
    forall i: nat | In(words, i) && i >= from
      ensures i / BITS >= w + 1
    {
      WordOf(i, w);
    }
  }

  lemma NothingMasked(x: bv64)
    ensures And(x, Not(0)) == x
  {
  }
}
