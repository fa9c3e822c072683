/** The `icontains` lookup: case-insensitive substring matching, with case
    folding restricted to ASCII letters. */
module Text {

  function LowerChar(c: char): (r: char)
    ensures !('A' <= r <= 'Z')
    ensures !('A' <= c <= 'Z') ==> r == c
  {
    if 'A' <= c <= 'Z' then (c as int + 32) as char else c
  }

  /** ASCII lower-casing of a whole string, character by character. */
  function Lower(s: string): (r: string)
    ensures |r| == |s|
    ensures forall i :: 0 <= i < |s| ==> r[i] == LowerChar(s[i])
    ensures forall i :: 0 <= i < |r| ==> !('A' <= r[i] <= 'Z')
  {
    if s == [] then [] else [LowerChar(s[0])] + Lower(s[1..])
  }

  /** `p` occurs in `s` as a contiguous run (SQL `LIKE '%p%'`). */
  predicate Contains(s: string, p: string)
    decreases |s|
  {
    p <= s || (s != [] && Contains(s[1..], p))
  }

  /** The `icontains` lookup: `q` occurs in `s`, ignoring ASCII case. */
  predicate IContains(s: string, q: string)
  {
    Contains(Lower(s), Lower(q))
  }

  /** An occurrence at any offset is found by `Contains`. */
  lemma {:induction false} ContainsAt(s: string, p: string, i: nat)
    requires i + |p| <= |s| && s[i..i + |p|] == p
    ensures Contains(s, p)
    decreases i
  {
    if i == 0 {
      assert s[..|p|] == p;
    } else {
      assert s[1..][i - 1..i - 1 + |p|] == s[i..i + |p|];
      ContainsAt(s[1..], p, i - 1);
    }
  }

  /** `p` occurs in `s` starting at offset `i`. */
  predicate OccursAt(s: string, p: string, i: nat)
  {
    i + |p| <= |s| && s[i..i + |p|] == p
  }

  /** `Contains` means exactly an occurrence at some offset. */
  lemma {:induction false} ContainsIffOccurs(s: string, p: string)
    ensures Contains(s, p) <==> exists i: nat :: OccursAt(s, p, i)
    decreases |s|
  {
    if Contains(s, p) {
      if p <= s {
        assert OccursAt(s, p, 0);
      } else {
        ContainsIffOccurs(s[1..], p);
        var i: nat :| OccursAt(s[1..], p, i);
        assert s[1..][i..i + |p|] == s[i + 1..i + 1 + |p|];
        assert OccursAt(s, p, i + 1);
      }
    }
    if exists i: nat :: OccursAt(s, p, i) {
      var i: nat :| OccursAt(s, p, i);
      ContainsAt(s, p, i);
    }
  }

  /** A substring of a prefix of `s` is a substring of `s`. */
  lemma {:induction false} ContainsInPrefix(p: string, s: string, q: string)
    requires p <= s && Contains(p, q)
    ensures Contains(s, q)
    decreases |p|
  {
    if q <= p {
      assert q == s[..|q|];
    } else {
      assert p[1..] <= s[1..];
      ContainsInPrefix(p[1..], s[1..], q);
    }
  }

  /** Substring containment is transitive. */
  lemma {:induction false} ContainsTransitive(s: string, p: string, q: string)
    requires Contains(s, p) && Contains(p, q)
    ensures Contains(s, q)
    decreases |s|
  {
    if p <= s {
      ContainsInPrefix(p, s, q);
    } else {
      ContainsTransitive(s[1..], p, q);
    }
  }

  lemma LowerPrefix(p: string, s: string)
    requires p <= s
    ensures Lower(p) <= Lower(s)
  {
    assert Lower(p) == Lower(s)[..|p|];
  }

  /** Lower-casing both sides keeps every occurrence. */
  lemma {:induction false} LowerContains(s: string, p: string)
    requires Contains(s, p)
    ensures Contains(Lower(s), Lower(p))
    decreases |s|
  {
    if p <= s {
      LowerPrefix(p, s);
    } else {
      LowerContains(s[1..], p);
      assert Lower(s)[1..] == Lower(s[1..]);
    }
  }

  /** Lower-casing is idempotent. */
  lemma LowerIdempotent(s: string)
    ensures Lower(Lower(s)) == Lower(s)
  {
    assert forall i :: 0 <= i < |s| ==> Lower(Lower(s))[i] == Lower(s)[i];
  }

  /** An exact (case-sensitive) occurrence is also a case-insensitive one. */
  lemma IContainsExact(s: string, q: string)
    requires Contains(s, q)
    ensures IContains(s, q)
  {
    LowerContains(s, q);
  }

  /** Narrowing the query: a text that matches `q2` matches every substring of `q2`. */
  lemma IContainsNarrowing(s: string, q2: string, q: string)
    requires IContains(s, q2) && Contains(q2, q)
    ensures IContains(s, q)
  {
    LowerContains(q2, q);
    ContainsTransitive(Lower(s), Lower(q2), Lower(q));
  }

  /** The query's own case is irrelevant. */
  lemma IContainsCaseless(s: string, q: string)
    ensures IContains(s, q) <==> IContains(s, Lower(q))
  {
    LowerIdempotent(q);
  }

  /** The empty query occurs in every text. */
  lemma IContainsEmpty(s: string)
    ensures IContains(s, "")
  {
  }
}
