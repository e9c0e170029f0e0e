/** The bounded-probe hash table of a trie node: open addressing in an array of 8 to 128 slots, where a key is
    never more than a few slots away from its hash. */
module HashTables {
  import opened Common
  import opened Lex
  import opened TrieModel
  import opened NodeSteps
  import opened Presences

  predicate IsCapacity(capacity: nat)
  {
    capacity == 8 || capacity == 16 || capacity == 32 || capacity == 64 || capacity == 128
  }

  /** `max_hash_neighbors`: how many slots a search may look at. */
  function MaxNeighbors(capacity: nat): (n: nat)
    ensures 1 <= n <= 4 && (IsCapacity(capacity) ==> 2 <= n && 2 * n < capacity)
  {
    if capacity == 8 || capacity == 128 then 2
    else if capacity == 16 || capacity == 32 then 3
    else if capacity == 64 then 4
    else 1
  }

  /** `details::hash`; the capacity is a power of two, so masking with `capacity - 1` is the remainder. */
  function Hash(k: Atom, capacity: nat): (h: nat)
    requires capacity > 0
    ensures h < capacity
  {
    101 * k % capacity
  }

  /** The multiplier is odd, so it keeps apart what the capacity keeps apart: two keys hash alike exactly if they are equal
      modulo the capacity. */
  lemma HashSpreads(a: Atom, b: Atom, capacity: nat)
    requires IsCapacity(capacity)
    ensures Hash(a, capacity) == Hash(b, capacity) <==> a % capacity == b % capacity
  {
    if a % capacity == b % capacity {
      var t := Quotients(a, b, capacity);
      assert 101 * a - 101 * b == 101 * (capacity * t) == capacity * (101 * t);
      SameRemainder(101 * a, 101 * b, capacity, 101 * t);
    }
    if 101 * a % capacity == 101 * b % capacity {
      var t := Quotients(101 * a, 101 * b, capacity);
      var u := UnitOf(capacity);
      Unmultiplied(a - b, t, u, capacity);
      SameRemainder(a, b, capacity, 109 * t - 86 * (u * (a - b)));
    }
  }

  lemma UnitOf(capacity: nat) returns (u: nat)
    requires IsCapacity(capacity)
    ensures 128 == capacity * u
  {
    u := if capacity == 8 then 16 else if capacity == 16 then 8 else if capacity == 32 then 4 else if capacity == 64 then 2 else 1;
  }

  /** 109 undoes 101 modulo 128. */
  lemma Unmultiplied(d: int, t: int, u: int, capacity: int)
    requires 101 * d == capacity * t && 128 == capacity * u
    ensures d == capacity * (109 * t - 86 * (u * d))
  {
    assert d == 109 * (101 * d) - 86 * 128 * d;
    assert 128 * d == capacity * u * d == capacity * (u * d);
  }

  lemma Quotients(a: nat, b: nat, n: nat) returns (t: int)
    requires n > 0 && a % n == b % n
    ensures a - b == n * t
  {
    t := a / n - b / n;
  }

  lemma SameRemainder(a: nat, b: nat, n: nat, t: int)
    requires n > 0 && a - b == n * t
    ensures a % n == b % n
  {
    var d := a / n - b / n - t;
    assert n * d == b % n - a % n;
    NoMultipleBetween(n, d);
  }

  lemma NoMultipleBetween(n: nat, d: int)
    ensures d >= 1 ==> n * d >= n
    ensures d <= -1 ==> n * d + n <= 0
  {
  }

  /** `++i %= capacity`. */
  function Next(i: nat, capacity: nat): (j: nat)
    requires i < capacity
    ensures j < capacity
  {
    if i + 1 == capacity then 0 else i + 1
  }

  // ----- cyclic order -----

  /** How many steps forward lead from slot `i` to slot `j`. */
  function Ahead(i: nat, j: nat, capacity: nat): (d: nat)
    requires i < capacity && j < capacity
    ensures d < capacity
  {
    if i <= j then j - i else j + capacity - i
  }

  /** The steps from `h` to `i` and on to `j`, unless `i` lies beyond `j`. */
  lemma StepsAdd(h: nat, i: nat, j: nat, capacity: nat)
    requires h < capacity && i < capacity && j < capacity
    ensures Ahead(i, j, capacity) == Ahead(h, j, capacity) - Ahead(h, i, capacity)
      + if Ahead(h, i, capacity) <= Ahead(h, j, capacity) then 0 else capacity
  {
  }

  lemma SomeSteps(i: nat, j: nat, capacity: nat)
    requires i < capacity && j < capacity
    ensures 0 <= Ahead(i, j, capacity) < capacity && (Ahead(i, j, capacity) == 0 <==> i == j)
  {
  }

  /** A step forward from slot `j`. */
  lemma StepOn(h: nat, j: nat, capacity: nat)
    requires h < capacity && j < capacity && Ahead(h, j, capacity) + 1 < capacity
    ensures Ahead(h, Next(j, capacity), capacity) == Ahead(h, j, capacity) + 1
  {
  }

  /** `less_pos`. */
  predicate LessPos(low: nat, high: nat, capacity: nat)
  {
    var dif := low as int - high as int;
    var a := if dif < 0 then -dif else dif;
    if a > capacity / 2 then dif > 0 else dif < 0
  }

  /** `less_pos` is the cyclic order at distances below half the table; at exactly half it is the plain order. */
  lemma LessPosIsCyclic(low: nat, high: nat, capacity: nat)
    requires low < capacity && high < capacity && capacity % 2 == 0
    ensures LessPos(low, high, capacity) <==>
      (0 < Ahead(low, high, capacity) < capacity / 2 || (Ahead(low, high, capacity) == capacity / 2 && low < high))
  {
    var half := capacity / 2;
    assert capacity == 2 * half;
  }

  // ----- well-formed tables -----

  datatype Cell<+P> = Cell(key: Atom, presence: bool, payload: P)

  /** The distance of slot `j` from where its key hashes to. */
  function Displacement<P>(s: seq<Cell<P>>, j: nat): nat
    requires j < |s|
  {
    Ahead(Hash(s[j].key, |s|), j, |s|)
  }

  /** Slot `j` is reachable: near enough to its hash, with no empty slot on the way. */
  ghost predicate Reachable<P>(s: seq<Cell<P>>, j: nat)
    requires j < |s|
  {
    && Displacement(s, j) < MaxNeighbors(|s|)
    && (forall i {:trigger s[i]} | 0 <= i < |s| && Ahead(Hash(s[j].key, |s|), i, |s|) < Displacement(s, j) :: s[i].presence)
  }

  /** The occupied slots but `hole` hold exactly the pairs of `m`, each key at its place in `at`; all of them are
      reachable, if the hole counts as occupied. */
  ghost predicate Represents<P(!new)>(s: seq<Cell<P>>, m: map<Atom, P>, at: map<Atom, nat>, hole: Option<nat>)
  {
    && m.Keys == at.Keys
    && (forall k {:trigger at[k]} | k in at :: at[k] < |s| && Some(at[k]) != hole && s[at[k]] == Cell(k, true, m[k]))
    && (forall j {:trigger s[j]} | 0 <= j < |s| && Some(j) != hole && s[j].presence ::
          s[j].key in at && at[s[j].key] == j && Reachable(s, j))
  }

  /** A search that has passed `i` occupied slots with other keys, and stops there, has missed nothing. */
  lemma NotFurther<P(!new)>(s: seq<Cell<P>>, m: map<Atom, P>, at: map<Atom, nat>, key: Atom, i: nat)
    requires s != [] && Represents(s, m, at, None)
    requires forall j {:trigger s[j]} | 0 <= j < |s| && Ahead(Hash(key, |s|), j, |s|) < i :: s[j].presence && s[j].key != key
    requires i < MaxNeighbors(|s|) ==>
      exists j :: 0 <= j < |s| && Ahead(Hash(key, |s|), j, |s|) == i && !s[j].presence
    ensures key !in m
  {
    assert key in m ==> Reachable(s, at[key]);
  }

  /** One more slot passed. */
  lemma NextPassed<P>(s: seq<Cell<P>>, h: nat, hash: nat, key: Atom, i: nat)
    requires IsCapacity(|s|) && h < |s| && hash < |s| && Ahead(h, hash, |s|) == i < MaxNeighbors(|s|)
    requires forall j {:trigger s[j]} | 0 <= j < |s| && Ahead(h, j, |s|) < i :: s[j].presence && s[j].key != key
    requires s[hash].presence && s[hash].key != key
    ensures Ahead(h, Next(hash, |s|), |s|) == i + 1
    ensures forall j {:trigger s[j]} | 0 <= j < |s| && Ahead(h, j, |s|) < i + 1 :: s[j].presence && s[j].key != key
  {
    StepOn(h, hash, |s|);
  }

  // ----- where the keys are -----

  /** Which key each slot holds. */
  ghost function Places<P>(s: seq<Cell<P>>): (v: seq<Option<Atom>>)
    ensures |v| == |s|
  {
    seq(|s|, j requires 0 <= j < |s| => if s[j].presence then Some(s[j].key) else None)
  }

  /** The first free slot from `hash` on, of the neighborhood of which `i` slots have been passed. */
  ghost function FreeFrom(v: seq<Option<Atom>>, hash: nat, i: nat): (slot: Option<nat>)
    requires hash < |v|
    ensures slot.Some? ==> slot.value < |v| && v[slot.value].None?
    decreases MaxNeighbors(|v|) - i
  {
    if i >= MaxNeighbors(|v|) then None
    else if v[hash].None? then Some(hash)
    else FreeFrom(v, Next(hash, |v|), i + 1)
  }

  /** Where a new key goes: the first free slot in the neighborhood of its hash. */
  ghost function RoomFor(v: seq<Option<Atom>>, key: Atom): (slot: Option<nat>)
    requires |v| > 0
    ensures slot.Some? ==> slot.value < |v| && v[slot.value].None?
  {
    FreeFrom(v, Hash(key, |v|), 0)
  }

  /** What becomes of the places when the keys from `from` on are put in, in ascending order; nothing if one of them finds
      no room. */
  ghost function Copied(v: seq<Option<Atom>>, keys: set<Atom>, from: nat): (r: Option<seq<Option<Atom>>>)
    requires |v| > 0
    ensures r.Some? ==> |r.value| == |v|
    decreases 256 - from
  {
    if from >= 256 then Some(v)
    else if from !in keys then Copied(v, keys, from + 1)
    else
      var slot := RoomFor(v, from);
      if slot.None? then None else Copied(v[slot.value := Some(from)], keys, from + 1)
  }

  ghost function Blank(capacity: nat): seq<Option<Atom>>
  {
    seq(capacity, j => None)
  }

  /** The places of the keys in a new table of the given capacity, if all of them fit in. */
  ghost function FreshCopy(capacity: nat, keys: set<Atom>): (r: Option<seq<Option<Atom>>>)
    requires capacity > 0
    ensures r.Some? ==> |r.value| == capacity
  {
    Copied(Blank(capacity), keys, 0)
  }

  lemma {:induction false} CopiedSkip(v: seq<Option<Atom>>, keys: set<Atom>, from: nat, c: nat)
    requires |v| > 0 && from <= c <= 256 && forall k | k in keys && from <= k :: c <= k
    ensures Copied(v, keys, from) == Copied(v, keys, c)
    decreases c - from
  {
    if from < c {
      CopiedSkip(v, keys, from + 1, c);
    }
  }

  /** One key of the copy. */
  lemma CopiedStep(v: seq<Option<Atom>>, keys: set<Atom>, from: nat, key: Atom)
    requires |v| > 0 && from <= key && key in keys && forall k | k in keys && from <= k :: key <= k
    ensures Copied(v, keys, from) ==
      if RoomFor(v, key).None? then None else Copied(v[RoomFor(v, key).value := Some(key)], keys, key as int + 1)
  {
    CopiedSkip(v, keys, from, key);
  }

  lemma CopiedEnds(v: seq<Option<Atom>>, keys: set<Atom>, from: nat)
    requires |v| > 0 && from <= 256 && forall k | k in keys :: k < from
    ensures Copied(v, keys, from) == Some(v)
  {
    CopiedSkip(v, keys, from, 256);
  }

  lemma EmptyIsBlank<P(!new)>(s: seq<Cell<P>>, at: map<Atom, nat>)
    requires Represents(s, map[], at, None)
    ensures Places(s) == Blank(|s|)
  {
    forall j | 0 <= j < |s|
      ensures !s[j].presence
    {
    }
  }

  /** All slots in the neighborhood of a hash are taken. */
  ghost predicate Crowded<P>(s: seq<Cell<P>>, h: nat)
    requires h < |s|
  {
    forall j {:trigger s[j]} | 0 <= j < |s| && Ahead(h, j, |s|) < MaxNeighbors(|s|) :: s[j].presence
  }

  lemma PayloadWritten<P(!new)>(s: seq<Cell<P>>, m: map<Atom, P>, at: map<Atom, nat>, key: Atom, p: P)
    requires Represents(s, m, at, None) && key in m
    ensures at[key] < |s| && Represents(s[at[key] := Cell(key, true, p)], m[key := p], at, None)
  {
    var s' := s[at[key] := Cell(key, true, p)];
    forall i | 0 <= i < |s'| && s'[i].presence
      ensures s'[i].key in at && at[s'[i].key] == i && Reachable(s', i)
    {
      assert s[i].presence && Reachable(s, i);
    }
  }

  /** A new pair in the first empty slot of its neighborhood. */
  lemma Placed<P(!new)>(s: seq<Cell<P>>, m: map<Atom, P>, at: map<Atom, nat>, key: Atom, j: nat, p: P)
    requires j < |s| && Represents(s, m, at, None) && key !in m && !s[j].presence
    requires Ahead(Hash(key, |s|), j, |s|) < MaxNeighbors(|s|)
    requires forall i {:trigger s[i]} | 0 <= i < |s| && Ahead(Hash(key, |s|), i, |s|) < Ahead(Hash(key, |s|), j, |s|) ::
      s[i].presence
    ensures Represents(s[j := Cell(key, true, p)], m[key := p], at[key := j], None)
  {
    var s' := s[j := Cell(key, true, p)];
    forall i | 0 <= i < |s'| && s'[i].presence
      ensures s'[i].key in at[key := j] && at[key := j][s'[i].key] == i && Reachable(s', i)
    {
      if i != j {
        assert s[i].presence && Reachable(s, i);
      }
    }
  }

  // ----- erasing: shifting back what the hole would cut off -----

  /** While `restore_on_erase` moves the hole: the occupied slots after `hole`, up to distance `n`, do not need it. */
  ghost predicate Settled<P(!new)>(s: seq<Cell<P>>, hole: nat, n: nat)
    requires hole < |s|
  {
    forall j {:trigger s[j]} | 0 <= j < |s| && s[j].presence && 1 <= Ahead(hole, j, |s|) < n ::
      Displacement(s, j) < Ahead(hole, j, |s|)
  }

  /** Taking a key out leaves a hole in its place. */
  lemma HoleOpened<P(!new)>(s: seq<Cell<P>>, m: map<Atom, P>, at: map<Atom, nat>, start: nat)
    requires IsCapacity(|s|) && start < |s| && Represents(s, m, at, None) && s[start].presence
    ensures var key := s[start].key; key in m && Represents(s, m - {key}, at - {key}, Some(start))
    ensures Ahead(Hash(s[start].key, |s|), start, |s|) < MaxNeighbors(|s|)
    ensures Ahead(start, Next(start, |s|), |s|) == 1 && Settled(s, start, 1)
  {
    assert Reachable(s, start);
  }

  /** Moving the pair at `i` into the hole, which moves to `i`. */
  lemma ShiftedBack<P(!new)>(s: seq<Cell<P>>, m: map<Atom, P>, at: map<Atom, nat>, hole: nat, i: nat)
    requires IsCapacity(|s|) && hole < |s| && i < |s| && Represents(s, m, at, Some(hole))
    requires s[hole].presence && s[i].presence && 1 <= Ahead(hole, i, |s|) <= Displacement(s, i)
    ensures var s' := s[hole := s[i]];
      && Represents(s', m, at[s[i].key := hole], Some(i)) && s'[i].presence
      && Displacement(s', i) < MaxNeighbors(|s|) && Settled(s', i, 1)
  {
    hide Hash, Ahead, MaxNeighbors;
    var s' := s[hole := s[i]];
    SomeSteps(hole, i, |s|);
    assert Reachable(s, i);
    StepsAdd(Hash(s[i].key, |s|), hole, i, |s|);
    forall j | 0 <= j < |s'| && j != i && s'[j].presence
      ensures s'[j].key in at && at[s[i].key := hole][s'[j].key] == j && Reachable(s', j)
    {
      if j != hole {
        assert s[j].presence && Reachable(s, j);
      }
    }
  }

  /** The total distance of the keys before slot `n` from their hashes. */
  ghost function Spread<P>(s: seq<Cell<P>>, hole: nat, n: nat): nat
    requires n <= |s|
  {
    if n == 0 then 0
    else Spread(s, hole, n - 1) + if n - 1 != hole && s[n - 1].presence then Displacement(s, n - 1) else 0
  }

  lemma {:induction false} SpreadShifted<P>(s: seq<Cell<P>>, hole: nat, i: nat, n: nat)
    requires n <= |s| && hole < |s| && i < |s| && i != hole && s[i].presence
    ensures var s' := s[hole := s[i]];
      Spread(s', i, n) == Spread(s, hole, n) - (if i < n then Displacement(s, i) else 0)
                                             + (if hole < n then Displacement(s', hole) else 0)
  {
    if n > 0 {
      SpreadShifted(s, hole, i, n - 1);
    }
  }

  /** Every shift brings a key nearer to its hash. */
  lemma ShiftedNearer<P(!new)>(s: seq<Cell<P>>, hole: nat, i: nat)
    requires hole < |s| && i < |s| && s[i].presence && 1 <= Ahead(hole, i, |s|) <= Displacement(s, i)
    ensures Spread(s[hole := s[i]], i, |s|) < Spread(s, hole, |s|)
  {
    SpreadShifted(s, hole, i, |s|);
    StepsAdd(Hash(s[i].key, |s|), hole, i, |s|);
  }

  /** Where `restore_on_erase` decides whether to shift: the hole is the greater of the two positions it compares,
      and the test says whether the key at `i` would be cut off by it. */
  lemma ShiftTest(home: nat, hole: nat, i: nat, localHash: nat, capacity: nat)
    requires IsCapacity(capacity) && home < capacity && hole < capacity && i < capacity && localHash < capacity
    requires Ahead(home, hole, capacity) < MaxNeighbors(capacity)
    requires Ahead(hole, i, capacity) <= MaxNeighbors(capacity) && Ahead(localHash, i, capacity) < MaxNeighbors(capacity)
    ensures (if LessPos(home, hole, capacity) then hole else home) == hole
    ensures !LessPos(hole, localHash, capacity) <==> Ahead(hole, i, capacity) <= Ahead(localHash, i, capacity)
  {
    LessPosIsCyclic(home, hole, capacity);
    LessPosIsCyclic(hole, localHash, capacity);
    StepsAdd(hole, localHash, i, capacity);
  }

  /** One more slot that does not need the hole, or is the hole. */
  lemma AllSettled<P(!new)>(s: seq<Cell<P>>, hole: nat, i: nat)
    requires IsCapacity(|s|) && hole < |s| && i < |s| && s[i].presence && Ahead(hole, i, |s|) <= MaxNeighbors(|s|)
    requires Settled(s, hole, if i == hole then 1 else Ahead(hole, i, |s|))
    requires i != hole ==> Displacement(s, i) < Ahead(hole, i, |s|)
    ensures Settled(s, hole, Ahead(hole, i, |s|) + 1)
    ensures Ahead(hole, Next(i, |s|), |s|) == Ahead(hole, i, |s|) + 1
  {
    StepOn(hole, i, |s|);
  }

  /** The key at `i`, a neighbor of the hole: the test of `restore_on_erase` says whether the hole cuts it off. */
  lemma Neighbor<P(!new)>(s: seq<Cell<P>>, m: map<Atom, P>, at: map<Atom, nat>, erasedHash: nat, hole: nat, i: nat)
    requires IsCapacity(|s|) && hole < |s| && i < |s| && Represents(s, m, at, Some(hole)) && s[i].presence
    requires erasedHash < |s| && Ahead(erasedHash, hole, |s|) < MaxNeighbors(|s|)
    requires 1 <= Ahead(hole, i, |s|) <= MaxNeighbors(|s|)
    ensures i != hole && Displacement(s, i) < MaxNeighbors(|s|)
    ensures var localHash := Hash(s[i].key, |s|); var x := if LessPos(erasedHash, hole, |s|) then hole else erasedHash;
      i != localHash && !LessPos(x, localHash, |s|) <==> Ahead(hole, i, |s|) <= Displacement(s, i)
  {
    hide Hash, Ahead, MaxNeighbors, LessPos;
    SomeSteps(hole, i, |s|);
    assert s[i].presence && Reachable(s, i);
    var localHash := Hash(s[i].key, |s|);
    SomeSteps(localHash, i, |s|);
    ShiftTest(erasedHash, hole, i, localHash, |s|);
  }

  /** Beyond an empty slot nothing needs the hole either. */
  lemma SettledBeyond<P(!new)>(s: seq<Cell<P>>, hole: nat, n: nat, j: nat)
    requires hole < |s| && j < |s| && j != hole && s[j].presence && Reachable(s, j) && Settled(s, hole, n)
    requires n < MaxNeighbors(|s|) ==>
      exists i :: 0 <= i < |s| && Ahead(hole, i, |s|) == n && !s[i].presence
    ensures Displacement(s, j) < Ahead(hole, j, |s|)
  {
    hide Hash, Ahead, MaxNeighbors;
    var h := Hash(s[j].key, |s|);
    SomeSteps(hole, j, |s|);
    if n <= Ahead(hole, j, |s|) < MaxNeighbors(|s|) {
      var i :| 0 <= i < |s| && Ahead(hole, i, |s|) == n && !s[i].presence;
      StepsAdd(hole, i, j, |s|);
      StepsAdd(h, i, j, |s|);
      SomeSteps(i, j, |s|);
    }
  }

  /** Once nothing needs the hole, it can be emptied. */
  lemma HoleEmptied<P(!new)>(s: seq<Cell<P>>, m: map<Atom, P>, at: map<Atom, nat>, hole: nat, n: nat)
    requires hole < |s| && Represents(s, m, at, Some(hole)) && Settled(s, hole, n)
    requires n < MaxNeighbors(|s|) ==>
      exists i :: 0 <= i < |s| && Ahead(hole, i, |s|) == n && !s[i].presence
    ensures Represents(s[hole := s[hole].(presence := false)], m, at, None)
  {
    hide Hash, Ahead, MaxNeighbors;
    var s' := s[hole := s[hole].(presence := false)];
    forall j | 0 <= j < |s'| && s'[j].presence
      ensures s'[j].key in at && at[s'[j].key] == j && Reachable(s', j)
    {
      assert s[j].presence && Reachable(s, j);
      SettledBeyond(s, hole, n, j);
      StepsAdd(Hash(s[j].key, |s|), hole, j, |s|);
    }
  }

  class HashTable<P(!new)> {
    const slots: array<Cell<P>>
    /** What the table stands for, and where each key is. */
    ghost var contents: map<Atom, P>
    ghost var at: map<Atom, nat>

    ghost predicate Valid()
      reads this, slots
    {
      IsCapacity(slots.Length) && Represents(slots[..], contents, at, None)
    }

    /** `create`: all slots empty. */
    constructor (capacity: nat, empty: P)
      requires IsCapacity(capacity)
      ensures Valid() && fresh(slots) && slots.Length == capacity && contents == map[]
    {
      slots := new Cell<P>[capacity](_ => Cell(0, false, empty));
      contents, at := map[], map[];
    }

    /** `find_impl`. */
    method FindSlot(key: Atom) returns (r: Option<nat>)
      requires Valid()
      ensures key in contents <==> r.Some?
      ensures r.Some? ==> r.value == at[key] < slots.Length
    {
      hide Ahead, Hash;
      var capacity: nat := slots.Length;
      var hash: nat, i: nat := Hash(key, capacity), 0;
      ghost var h: nat := hash;
      SomeSteps(h, h, capacity);
      while i < MaxNeighbors(capacity)
        invariant i <= MaxNeighbors(capacity) && hash < capacity && Ahead(h, hash, capacity) == i
        invariant forall j {:trigger slots[j]} | 0 <= j < capacity && Ahead(h, j, capacity) < i ::
          slots[j].presence && slots[j].key != key
      {
        if !slots[hash].presence {
          NotFurther(slots[..], contents, at, key, i);
          return None;
        }
        if slots[hash].key == key {
          assert slots[..][hash].presence;
          return Some(hash);
        }
        NextPassed(slots[..], h, hash, key, i);
        hash, i := Next(hash, capacity), i + 1;
      }
      NotFurther(slots[..], contents, at, key, i);
      return None;
    }

    /** `get`. */
    method Get(key: Atom) returns (r: Option<P>)
      requires Valid()
      ensures r == if key in contents then Some(contents[key]) else None
    {
      var i := FindSlot(key);
      return if i.None? then None else Some(slots[i.value].payload);
    }

    /** Writing through the pointer that `get` returned. */
    method Put(key: Atom, p: P)
      requires Valid() && key in contents
      modifies this`contents, slots
      ensures Valid() && contents == old(contents)[key := p]
    {
      var i := FindSlot(key);
      PayloadWritten(slots[..], contents, at, key, p);
      ghost var s := slots[..];
      slots[i.value] := slots[i.value].(payload := p);
      contents := contents[key := p];
      assert slots[..] == s[i.value := Cell(key, true, p)];
    }

    /** A new pair in a free slot of its neighborhood, behind taken ones only. */
    method PlaceAt(key: Atom, p: P, j: nat)
      requires Valid() && key !in contents && j < slots.Length && !slots[j].presence
      requires Ahead(Hash(key, slots.Length), j, slots.Length) < MaxNeighbors(slots.Length)
      requires forall i {:trigger slots[i]} | 0 <= i < slots.Length
        && Ahead(Hash(key, slots.Length), i, slots.Length) < Ahead(Hash(key, slots.Length), j, slots.Length) :: slots[i].presence
      modifies this`contents, this`at, slots
      ensures Valid() && contents == old(contents)[key := p] && at == old(at)[key := j]
      ensures Places(slots[..]) == old(Places(slots[..]))[j := Some(key)]
    {
      hide Ahead, Hash;
      ghost var s := slots[..];
      Placed(s, contents, at, key, j, p);
      slots[j] := Cell(key, true, p);
      contents, at := contents[key := p], at[key := j];
      assert slots[..] == s[j := Cell(key, true, p)];
    }

    /** `insert_impl`: the slot and true, the slot and false if the key is there already, or nothing and false
        exactly if the whole neighborhood is taken by other keys. */
    method Insert(key: Atom, p: P) returns (slot: Option<nat>, added: bool)
      requires Valid()
      modifies this`contents, this`at, slots
      ensures Valid()
      ensures added ==> slot.Some? && key !in old(contents) && contents == old(contents)[key := p]
      ensures !added ==> contents == old(contents) && at == old(at) && slots[..] == old(slots[..])
      ensures !added && slot.Some? ==> key in contents
      ensures slot.Some? ==> slot == Some(at[key])
      ensures slot.None? <==> key !in old(contents) && Crowded(old(slots[..]), Hash(key, slots.Length))
      ensures key !in old(contents) ==> slot == RoomFor(old(Places(slots[..])), key)
      ensures added ==> Places(slots[..]) == old(Places(slots[..]))[slot.value := Some(key)]
      ensures key !in old(contents) && Apart(old(contents).Keys + {key}, slots.Length) ==>
        added && slot == Some(Hash(key, slots.Length))
    {
      hide Ahead, Hash, Apart, MaxNeighbors;
      ghost var v := Places(slots[..]);
      if key !in contents && Apart(contents.Keys + {key}, slots.Length) {
        HomeIsFree(slots[..], contents, at, key);
      }
      var capacity: nat := slots.Length;
      var hash: nat, i: nat := Hash(key, capacity), 0;
      ghost var h: nat := hash;
      SomeSteps(h, h, capacity);
      while i < MaxNeighbors(capacity)
        invariant slots[..] == old(slots[..]) && contents == old(contents) && at == old(at)
        invariant i <= MaxNeighbors(capacity) && hash < capacity && Ahead(h, hash, capacity) == i
        invariant RoomFor(v, key) == FreeFrom(v, hash, i)
        invariant forall j {:trigger slots[j]} | 0 <= j < capacity && Ahead(h, j, capacity) < i ::
          slots[j].presence && slots[j].key != key
      {
        ghost var s := slots[..];
        assert v[hash] == if slots[hash].presence then Some(slots[hash].key) else None;
        if !slots[hash].presence {
          NotFurther(s, contents, at, key, i);
          PlaceAt(key, p, hash);
          return Some(hash), true;
        }
        if slots[hash].key == key {
          assert s[hash].presence;
          return Some(hash), false;
        }
        NextPassed(s, h, hash, key, i);
        hash, i := Next(hash, capacity), i + 1;
      }
      NotFurther(slots[..], contents, at, key, i);
      return None, false;
    }

    /** `hash_data[erase_pos] = std::move(local_item)`. */
    method ShiftBack(hole: nat, i: nat)
      requires IsCapacity(slots.Length) && hole < slots.Length && i < slots.Length
      requires Represents(slots[..], contents, at, Some(hole)) && slots[i].presence
      requires 1 <= Ahead(hole, i, slots.Length) <= Displacement(slots[..], i)
      modifies this`at, slots
      ensures Represents(slots[..], contents, at, Some(i)) && Settled(slots[..], i, 1) && slots[i] == old(slots[i])
      ensures Ahead(Hash(slots[i].key, slots.Length), i, slots.Length) < MaxNeighbors(slots.Length)
      ensures Spread(slots[..], i, slots.Length) < old(Spread(slots[..], hole, slots.Length))
      ensures Ahead(i, i, slots.Length) == 0
    {
      ghost var s := slots[..];
      ShiftedBack(s, contents, at, hole, i);
      ShiftedNearer(s, hole, i);
      slots[hole] := slots[i];
      at := at[slots[i].key := hole];
      assert slots[..] == s[hole := s[i]];
    }

    /** `restore_on_erase`: shifts back the keys that an empty slot at `start` would cut off from their hashes, and
        empties the slot this leaves. */
    method RestoreOnErase(start: nat)
      requires Valid() && start < slots.Length && slots[start].presence
      modifies this`contents, this`at, slots
      ensures Valid() && contents == old(contents) - {old(slots[start].key)}
    {
      hide Ahead, Hash, MaxNeighbors, LessPos, Displacement, Spread, Represents, Settled;
      var capacity: nat := slots.Length;
      var hole: nat, erasedHash: nat := start, Hash(slots[start].key, capacity);
      var limit: nat, i: nat := MaxNeighbors(capacity), Next(start, capacity);
      ghost var key := slots[start].key;
      HoleOpened(slots[..], contents, at, start);
      contents, at := contents - {key}, at - {key};
      while limit != 0
        invariant contents == old(contents) - {key}
        invariant hole < capacity && i < capacity && Represents(slots[..], contents, at, Some(hole))
        invariant erasedHash < capacity && Ahead(erasedHash, hole, capacity) < MaxNeighbors(capacity)
        invariant MaxNeighbors(capacity) <= Ahead(hole, i, capacity) + limit <= MaxNeighbors(capacity) + 1
        invariant 1 <= Ahead(hole, i, capacity) && Settled(slots[..], hole, Ahead(hole, i, capacity))
        decreases Spread(slots[..], hole, capacity), limit
      {
        ghost var s := slots[..];
        if !slots[i].presence {
          break;
        }
        var localHash: nat := Hash(slots[i].key, capacity);
        Neighbor(s, contents, at, erasedHash, hole, i);
        if i != localHash {
          var x := if LessPos(erasedHash, hole, capacity) then hole else erasedHash;
          if !LessPos(x, localHash, capacity) {
            ShiftBack(hole, i);
            hole, erasedHash := i, localHash;
            //the shift may cut off further neighbors
            limit := MaxNeighbors(capacity);
          }
        }
        AllSettled(slots[..], hole, i);
        i, limit := Next(i, capacity), limit - 1;
      }
      HoleEmptied(slots[..], contents, at, hole, Ahead(hole, i, capacity));
      ghost var s := slots[..];
      slots[hole] := slots[hole].(presence := false);
      assert slots[..] == s[hole := s[hole].(presence := false)];
    }

    /** `erase`: whether there was such a key. */
    method Erase(key: Atom) returns (erased: bool)
      requires Valid()
      modifies this`contents, this`at, slots
      ensures Valid() && contents == old(contents) - {key}
      ensures erased <==> key in old(contents)
    {
      hide Ahead, Hash;
      var capacity: nat := slots.Length;
      var hash: nat, i: nat := Hash(key, capacity), 0;
      ghost var h: nat := hash;
      SomeSteps(h, h, capacity);
      while i < MaxNeighbors(capacity)
        invariant slots[..] == old(slots[..]) && contents == old(contents) && at == old(at)
        invariant i <= MaxNeighbors(capacity) && hash < capacity && Ahead(h, hash, capacity) == i
        invariant forall j {:trigger slots[j]} | 0 <= j < capacity && Ahead(h, j, capacity) < i ::
          slots[j].presence && slots[j].key != key
      {
        if !slots[hash].presence {
          NotFurther(slots[..], contents, at, key, i);
          return false;
        }
        if slots[hash].key == key {
          assert slots[..][hash].presence;
          RestoreOnErase(hash);
          return true;
        }
        NextPassed(slots[..], h, hash, key, i);
        hash, i := Next(hash, capacity), i + 1;
      }
      NotFurther(slots[..], contents, at, key, i);
      return false;
    }

    /** Inserts a new key if there is room for it, as there always is in an empty table. */
    method TryInsert(key: Atom, p: P) returns (added: bool)
      requires Valid() && key !in contents
      modifies this`contents, this`at, slots
      ensures Valid() && contents == if added then old(contents)[key := p] else old(contents)
      ensures added <==> RoomFor(old(Places(slots[..])), key).Some?
      ensures added <==> !Crowded(old(slots[..]), Hash(key, slots.Length))
      ensures old(contents) == map[] ==> added
    {
      hide Hash, Crowded, Represents, RoomFor, Places, Apart;
      if contents == map[] {
        RoomInEmpty(slots[..], at, Hash(key, slots.Length));
      }
      var slot;
      slot, added := Insert(key, p);
    }

    /** The copying part of `grow_from`, into this new table: false exactly if some key, with all lesser ones copied,
        finds its neighborhood crowded. */
    method GrowFrom(from: HashTable<P>, info: Presence) returns (ok: bool)
      requires Valid() && from.Valid() && from != this && from.slots != slots
      requires contents == map[] && info.Valid() && info.Keys() == from.contents.Keys && slots !in info.Repr()
      modifies this`contents, this`at, slots
      ensures Valid() && (ok <==> contents == from.contents)
      ensures FreshCopy(slots.Length, from.contents.Keys) == if ok then Some(Places(slots[..])) else None
      ensures !ok ==> exists k :: k in from.contents && RefusedAt(slots[..], contents, from.contents, k)
    {
      hide Represents, Presence.Children, Presence.Values, Crowded, Hash, Places, RoomFor, Copied, Apart, KeyFrom;
      ghost var presence := info.Keys();
      var i := info.FirstSet();
      ghost var next: nat := 0;
      IsBlank();
      BelowNone(from.contents);
      while i.Some?
        invariant Valid() && from.Valid() && from.contents == old(from.contents)
        invariant i == KeyFrom(presence, next) && info.Keys() == presence && next <= 256
        invariant contents == Below(from.contents, next)
        invariant Copied(Places(slots[..]), presence, next) == FreshCopy(slots.Length, presence)
        decreases 256 - next
      {
        CopiedStep(Places(slots[..]), presence, next, i.value);
        BelowStep(from.contents, next, i.value);
        var v := from.Get(i.value);
        var slot, added := Insert(i.value, v.value);
        if !added {
          assert RefusedAt(slots[..], contents, from.contents, i.value);
          return false;
        }
        next := i.value as int + 1;
        i := info.NextSet(i.value);
      }
      CopiedEnds(Places(slots[..]), presence, next);
      BelowAll(from.contents, next);
      return true;
    }

    lemma IsBlank()
      requires Valid() && contents == map[]
      ensures Places(slots[..]) == Blank(slots.Length)
    {
      assert at == map[];
      EmptyIsBlank(slots[..], at);
    }
  }

  /** The pairs with keys below `k`. */
  ghost function Below<P>(m: map<Atom, P>, k: nat): map<Atom, P>
  {
    map c | c in m && c < k :: m[c]
  }

  /** With all lesser keys copied, the neighborhood of `k` is full. */
  ghost predicate RefusedAt<P>(s: seq<Cell<P>>, contents: map<Atom, P>, m: map<Atom, P>, k: Atom)
    requires s != []
  {
    k !in contents && contents == Below(m, k) && Crowded(s, Hash(k, |s|))
  }

  lemma BelowNone<P>(m: map<Atom, P>)
    ensures Below(m, 0) == map[]
  {
  }

  lemma BelowStep<P>(m: map<Atom, P>, from: nat, c: Atom)
    requires from <= c && c in m && forall k | k in m && from <= k :: c <= k
    ensures Below(m, c) == Below(m, from) && c !in Below(m, from)
    ensures Below(m, c as int + 1) == Below(m, from)[c := m[c]]
  {
  }

  lemma BelowAll<P>(m: map<Atom, P>, from: nat)
    requires forall k | k in m :: k < from
    ensures Below(m, from) == m
  {
  }

  // ----- keys that do not meet -----

  /** No two of the keys are equal modulo the capacity. */
  ghost predicate Apart(keys: set<Atom>, capacity: nat)
    requires capacity > 0
  {
    forall a, b | a in keys && b in keys && a != b :: a % capacity != b % capacity
  }

  lemma ApartHashes(keys: set<Atom>, capacity: nat, a: Atom, b: Atom)
    requires IsCapacity(capacity) && Apart(keys, capacity) && a in keys && b in keys && a != b
    ensures Hash(a, capacity) != Hash(b, capacity)
  {
    HashSpreads(a, b, capacity);
  }

  /** Keys that are apart stay at their hashes: whatever slot a key was displaced from would hold a displaced key, and so on
      back to the empty slot `e`. */
  lemma {:induction false} AtHome<P(!new)>(s: seq<Cell<P>>, m: map<Atom, P>, at: map<Atom, nat>, e: nat, j: nat)
    requires IsCapacity(|s|) && Represents(s, m, at, None) && Apart(m.Keys, |s|)
    requires e < |s| && !s[e].presence && j < |s| && s[j].presence
    ensures Hash(s[j].key, |s|) == j
    decreases Ahead(e, j, |s|)
  {
    hide Hash;
    var h := Hash(s[j].key, |s|);
    assert Reachable(s, j);
    if h != j {
      SomeSteps(h, h, |s|);
      SomeSteps(h, j, |s|);
      assert s[h].presence;
      StepsAdd(h, e, j, |s|);
      StepsAdd(e, h, j, |s|);
      AtHome(s, m, at, e, h);
      ApartHashes(m.Keys, |s|, s[h].key, s[j].key);
    }
  }

  lemma {:induction false} DistinctAreFew(f: seq<nat>, n: nat)
    requires Distinct(f) && forall i | 0 <= i < |f| :: f[i] < n
    ensures |f| <= n
    decreases n
  {
    if f != [] {
      assert f[0] < n;
      if i :| 0 <= i < |f| && f[i] == n - 1 {
        DistinctAreFew(f[..i] + f[i + 1..], n - 1);
      } else {
        DistinctAreFew(f, n - 1);
      }
    }
  }

  /** The hashes of the keys in a full table. */
  ghost function Hashes<P>(s: seq<Cell<P>>): (f: seq<nat>)
    requires s != []
  {
    seq(|s|, i requires 0 <= i < |s| => Hash(s[i].key, |s|))
  }

  lemma HashesDiffer<P(!new)>(s: seq<Cell<P>>, m: map<Atom, P>, at: map<Atom, nat>, i: nat, j: nat)
    requires IsCapacity(|s|) && Represents(s, m, at, None) && Apart(m.Keys, |s|)
    requires i < j < |s| && s[i].presence && s[j].presence
    ensures Hash(s[i].key, |s|) != Hash(s[j].key, |s|)
  {
    assert at[s[i].key] == i && at[s[j].key] == j;
    ApartHashes(m.Keys, |s|, s[i].key, s[j].key);
  }

  lemma HashIsNew<P(!new)>(s: seq<Cell<P>>, m: map<Atom, P>, at: map<Atom, nat>, key: Atom, i: nat)
    requires IsCapacity(|s|) && Represents(s, m, at, None) && key !in m && Apart(m.Keys + {key}, |s|)
    requires i < |s| && s[i].presence
    ensures Hash(s[i].key, |s|) != Hash(key, |s|)
  {
    assert s[i].key in at;
    ApartHashes(m.Keys + {key}, |s|, s[i].key, key);
  }

  /** A full table holds a key for every hash, if its keys are apart. */
  lemma NotFull<P(!new)>(s: seq<Cell<P>>, m: map<Atom, P>, at: map<Atom, nat>, key: Atom) returns (e: nat)
    requires IsCapacity(|s|) && Represents(s, m, at, None) && key !in m && Apart(m.Keys + {key}, |s|)
    ensures e < |s| && !s[e].presence
  {
    hide Hash, Represents, Apart;
    if j :| 0 <= j < |s| && !s[j].presence {
      e := j;
    } else {
      StillApart(m.Keys, key, |s|);
      var f := Hashes(s) + [Hash(key, |s|)];
      forall i, j | 0 <= i < j < |f|
        ensures f[i] != f[j]
      {
        if j < |s| {
          HashesDiffer(s, m, at, i, j);
        } else {
          HashIsNew(s, m, at, key, i);
        }
      }
      DistinctAreFew(f, |s|);
      assert false;
    }
  }

  lemma StillApart(keys: set<Atom>, key: Atom, capacity: nat)
    requires capacity > 0 && Apart(keys + {key}, capacity)
    ensures Apart(keys, capacity)
  {
  }

  /** So a key that is apart from all in the table finds its hash free. */
  lemma HomeIsFree<P(!new)>(s: seq<Cell<P>>, m: map<Atom, P>, at: map<Atom, nat>, key: Atom)
    requires IsCapacity(|s|) && Represents(s, m, at, None) && key !in m && Apart(m.Keys + {key}, |s|)
    ensures !s[Hash(key, |s|)].presence
  {
    hide Hash;
    var h := Hash(key, |s|);
    if s[h].presence {
      var e := NotFull(s, m, at, key);
      AtHome(s, m, at, e, h);
      ApartHashes(m.Keys + {key}, |s|, s[h].key, key);
      assert false;
    }
  }

  /** Keys that are apart all fit into a new table. */
  lemma ApartFit(capacity: nat, keys: set<Atom>)
    requires IsCapacity(capacity) && Apart(keys, capacity)
    ensures FreshCopy(capacity, keys).Some?
  {
    ApartFitFrom(Blank(capacity), keys, 0);
  }

  lemma {:induction false} ApartFitFrom(v: seq<Option<Atom>>, keys: set<Atom>, from: nat)
    requires IsCapacity(|v|) && Apart(keys, |v|) && from <= 256
    requires forall j {:trigger v[j]} | 0 <= j < |v| && v[j].Some? ::
      v[j].value in keys && v[j].value < from && Hash(v[j].value, |v|) == j
    ensures Copied(v, keys, from).Some?
    decreases 256 - from
  {
    hide Hash, Apart;
    if from < 256 {
      if from in keys {
        var h := Hash(from, |v|);
        if v[h].Some? {
          ApartHashes(keys, |v|, v[h].value, from);
        }
        ApartFitFrom(v[h := Some(from)], keys, from + 1);
      } else {
        ApartFitFrom(v, keys, from + 1);
      }
    }
  }

  // ----- keys that meet -----

  /** How many keys with the same hash a table of this capacity has room for, if nothing else is in the way. */
  function AlikeFit(capacity: nat): nat
  {
    if capacity <= 8 || capacity >= 128 then 2 else if capacity == 64 then 4 else 3
  }

  /** Slot `i` steps on from `h`. */
  ghost function StepsOn(h: nat, i: nat, capacity: nat): (j: nat)
    requires h < capacity && i < capacity
    ensures j < capacity && Ahead(h, j, capacity) == i
  {
    if h + i < capacity then h + i else h + i - capacity
  }

  /** The places of `n` keys that hash to `h`: a row of taken slots from `h` on. */
  ghost predicate IsRow(v: seq<Option<Atom>>, h: nat, n: nat)
  {
    h < |v| && forall j {:trigger v[j]} | 0 <= j < |v| :: v[j].Some? <==> Ahead(h, j, |v|) < n
  }

  lemma {:induction false} FreeInRow(v: seq<Option<Atom>>, h: nat, n: nat, i: nat)
    requires IsCapacity(|v|) && IsRow(v, h, n) && i <= n <= MaxNeighbors(|v|)
    ensures FreeFrom(v, StepsOn(h, i, |v|), i) == if n < MaxNeighbors(|v|) then Some(StepsOn(h, n, |v|)) else None
    decreases n - i
  {
    if i < n {
      assert Next(StepsOn(h, i, |v|), |v|) == StepsOn(h, i + 1, |v|);
      FreeInRow(v, h, n, i + 1);
    }
  }

  lemma RowGrows(v: seq<Option<Atom>>, h: nat, n: nat, key: Atom)
    requires IsCapacity(|v|) && IsRow(v, h, n) && n < MaxNeighbors(|v|)
    ensures IsRow(v[StepsOn(h, n, |v|) := Some(key)], h, n + 1)
  {
    forall j | 0 <= j < |v|
      ensures Ahead(h, j, |v|) == n <==> j == StepsOn(h, n, |v|)
    {
    }
  }

  ghost function FromOnward(keys: set<Atom>, from: nat): set<Atom>
  {
    set k | k in keys && from <= k
  }

  lemma {:induction false} AlikeFitFrom(v: seq<Option<Atom>>, keys: set<Atom>, from: nat, h: nat, n: nat)
    requires IsCapacity(|v|) && IsRow(v, h, n) && n <= MaxNeighbors(|v|) && from <= 256
    requires forall k | k in keys :: Hash(k, |v|) == h
    ensures Copied(v, keys, from).Some? <==> n + |FromOnward(keys, from)| <= MaxNeighbors(|v|)
    decreases 256 - from
  {
    hide Hash, MaxNeighbors;
    if from == 256 {
      assert FromOnward(keys, from) == {};
    } else if from in keys {
      assert FromOnward(keys, from) == FromOnward(keys, from + 1) + {from};
      FreeInRow(v, h, n, 0);
      if n < MaxNeighbors(|v|) {
        RowGrows(v, h, n, from);
        AlikeFitFrom(v[StepsOn(h, n, |v|) := Some(from)], keys, from + 1, h, n + 1);
      }
    } else {
      assert FromOnward(keys, from) == FromOnward(keys, from + 1);
      AlikeFitFrom(v, keys, from + 1, h, n);
    }
  }

  /** Keys that are equal modulo the capacity fit into a new table exactly up to this number. */
  lemma AlikeFits(capacity: nat, keys: set<Atom>)
    requires IsCapacity(capacity) && forall a, b | a in keys && b in keys :: a % capacity == b % capacity
    ensures FreshCopy(capacity, keys).Some? <==> |keys| <= AlikeFit(capacity)
  {
    assert FromOnward(keys, 0) == keys;
    if a :| a in keys {
      forall k | k in keys
        ensures Hash(k, capacity) == Hash(a, capacity)
      {
        HashSpreads(k, a, capacity);
      }
      AlikeFitFrom(Blank(capacity), keys, 0, Hash(a, capacity), 0);
    } else {
      AlikeFitFrom(Blank(capacity), keys, 0, 0, 0);
    }
  }

  /** Twice the slots need not be room enough: three keys that fit into 64 slots, where a neighborhood has four, do not fit
      into 128, where it has two. */
  lemma DoublingCanFail()
    ensures FreshCopy(64, {0, 109, 128}).Some? && FreshCopy(128, {0, 109, 128}).None?
  {
    hide FreshCopy, Copied;
    TwoInFront(64);
    TwoInFront(128);
    var b, c := Blank(64)[0 := Some(0)][1 := Some(109)], Blank(128)[0 := Some(0)][1 := Some(109)];
    assert RoomFor(c, 128).None? by {
      assert FreeFrom(c, 0, 0) == FreeFrom(c, 1, 1) == FreeFrom(c, 2, 2);
    }
    assert RoomFor(b, 128) == Some(2) by {
      assert FreeFrom(b, 0, 0) == FreeFrom(b, 1, 1) == FreeFrom(b, 2, 2);
    }
    CopiedEnds(b[2 := Some(128)], {0, 109, 128}, 129);
  }

  lemma TwoInFront(capacity: nat)
    requires capacity == 64 || capacity == 128
    ensures var v := Blank(capacity)[0 := Some(0)][1 := Some(109)]; var keys := {0, 109, 128};
      FreshCopy(capacity, keys) ==
        if RoomFor(v, 128).None? then None else Copied(v[RoomFor(v, 128).value := Some(128)], keys, 129)
  {
    var keys: set<Atom> := {0, 109, 128};
    var v := Blank(capacity);
    CopiedStep(v, keys, 0, 0);
    CopiedStep(v[0 := Some(0)], keys, 1, 109);
    CopiedStep(v[0 := Some(0)][1 := Some(109)], keys, 110, 128);
  }

  /** An empty table takes any key. */
  lemma RoomInEmpty<P(!new)>(s: seq<Cell<P>>, at: map<Atom, nat>, h: nat)
    requires h < |s| && Represents(s, map[], at, None)
    ensures !Crowded(s, h)
  {
    assert !s[h].presence;
  }
}
