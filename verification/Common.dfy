/** What several components share: optional results, and the choice of an address that is not in use. */
module Common {
  datatype Option<+T> = None | Some(value: T)

  lemma SomeIsFree(used: set<nat>)
    ensures exists b: nat :: b !in used
  {
    var top := Top(used);
    assert top !in used;
  }

  lemma {:induction false} Top(used: set<nat>) returns (top: nat)
    ensures forall a | a in used :: a < top
    decreases used
  {
    if used == {} {
      top := 0;
    } else {
      var a :| a in used;
      var rest := Top(used - {a});
      top := if a < rest then rest else a + 1;
      assert forall b | b in used :: b == a || b in used - {a};
    }
  }

  ghost predicate Distinct<T>(s: seq<T>)
  {
    forall i, j | 0 <= i < j < |s| :: s[i] != s[j]
  }

  lemma DistinctJoin<T>(s: seq<T>, t: seq<T>)
    requires Distinct(s) && Distinct(t) && forall x | x in s :: x !in t
    ensures Distinct(s + t)
  {
    forall i, j | 0 <= i < j < |s + t|
      ensures (s + t)[i] != (s + t)[j]
    {
      if i < |s| <= j {
        assert s[i] in s && t[j - |s|] in t;
      }
    }
  }

  ghost predicate Sorted(s: seq<int>)
  {
    forall i, j | 0 <= i < j < |s| :: s[i] <= s[j]
  }

  /** What is left of a sorted sequence from the first element that is not below `key`: `lower_bound`. */
  function LowerBound(s: seq<int>, key: int): (r: seq<int>)
    ensures r == [] || key <= r[0]
  {
    if s == [] || key <= s[0] then s else LowerBound(s[1..], key)
  }

  /** Nothing is skipped that is not below the key. */
  lemma {:induction false} LowerBoundKeeps(s: seq<int>, key: int, x: int)
    requires Sorted(s) && key <= x
    ensures Sorted(LowerBound(s, key)) && (x in LowerBound(s, key) <==> x in s)
    ensures multiset(LowerBound(s, key))[x] == multiset(s)[x]
    ensures |LowerBound(s, key)| <= |s| && (s != [] && s[0] < key ==> |LowerBound(s, key)| < |s|)
  {
    if s != [] && s[0] < key {
      assert s == [s[0]] + s[1..];
      LowerBoundKeeps(s[1..], key, x);
    }
  }
}
