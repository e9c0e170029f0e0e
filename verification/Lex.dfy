/** Key strings of the trie: sequences of bytes under the lexicographic order of
    `std::basic_string<atom_t>`. */
module Lex {
  type Atom = a: int | 0 <= a < 256

  type Str = seq<Atom>

  /** The order of `TrieIterator::operator <`: byte by byte, a proper prefix goes first. */
  predicate Less(s: Str, t: Str)
  {
    t != [] && (s == [] || s[0] < t[0] || (s[0] == t[0] && Less(s[1..], t[1..])))
  }

  lemma {:induction false} LessIrreflexive(s: Str)
    ensures !Less(s, s)
  {
    if s != [] {
      LessIrreflexive(s[1..]);
    }
  }

  lemma {:induction false} LessTransitive(s: Str, t: Str, u: Str)
    requires Less(s, t) && Less(t, u)
    ensures Less(s, u)
  {
    if s != [] && s[0] == t[0] && t[0] == u[0] {
      LessTransitive(s[1..], t[1..], u[1..]);
    }
  }

  lemma {:induction false} LessTotal(s: Str, t: Str)
    ensures s == t || Less(s, t) || Less(t, s)
  {
    if s != [] && t != [] && s[0] == t[0] {
      LessTotal(s[1..], t[1..]);
      assert s == [s[0]] + s[1..] && t == [t[0]] + t[1..];
    }
  }

  lemma LessAsymmetric(s: Str, t: Str)
    requires Less(s, t)
    ensures !Less(t, s)
  {
    if Less(t, s) {
      LessTransitive(s, t, s);
      LessIrreflexive(s);
    }
  }

  lemma {:induction false} LessCommonPrefix(p: Str, s: Str, t: Str)
    ensures Less(p + s, p + t) <==> Less(s, t)
  {
    if p == [] {
      assert p + s == s && p + t == t;
    } else {
      assert (p + s)[1..] == p[1..] + s && (p + t)[1..] == p[1..] + t;
      LessCommonPrefix(p[1..], s, t);
    }
  }

  lemma LessExtension(s: Str, t: Str)
    requires s <= t && s != t
    ensures Less(s, t)
  {
    LessCommonPrefix(s, [], t[|s|..]);
    assert s + [] == s && s + t[|s|..] == t;
  }

  /** Two strings that first differ right after a common prefix are ordered by that byte. */
  lemma LessByNextByte(p: Str, s: Str, t: Str)
    requires p <= s && p <= t && |p| < |s| && |p| < |t|
    requires s[|p|] < t[|p|]
    ensures Less(s, t)
  {
    LessCommonPrefix(p, s[|p|..], t[|p|..]);
    assert p + s[|p|..] == s && p + t[|p|..] == t;
  }

  /** A string above `k` that does not continue a prefix `p` of `k` is above every continuation of `p`. */
  lemma {:induction false} LessLeavesPrefix(p: Str, k: Str, s: Str, e: Str)
    requires p <= k && p <= e && Less(k, s) && !(p <= s)
    ensures Less(e, s)
  {
    if k[0] == s[0] {
      LessLeavesPrefix(p[1..], k[1..], s[1..], e[1..]);
    }
  }

  lemma CutAt(s: Str, n: nat)
    requires n <= |s|
    ensures s[..n] + s[n..] == s
  {
  }

  /** Spelling a string by its first byte and the rest. */
  lemma SpellRest(p: Str, rest: Str)
    requires rest != []
    ensures p + [rest[0]] + rest[1..] == p + rest
    ensures (p + rest)[|p + rest| - (|rest| - 1)..] == rest[1..]
  {
  }
}
