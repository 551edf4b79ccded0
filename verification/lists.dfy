/** Sequence operations shared by the admin pages: `Array.prototype.filter`, in
    its by-value and by-index forms. */
module Lists {

  /** `r` is `s` with some elements left out, the rest in their original order. */
  predicate IsSubsequence<T(==)>(r: seq<T>, s: seq<T>)
    decreases |s|
  {
    r == [] || (s != [] && ((r[0] == s[0] && IsSubsequence(r[1..], s[1..])) || IsSubsequence(r, s[1..])))
  }

  /** Every sequence is a subsequence of itself. */
  lemma {:induction false} SubsequenceReflexive<T>(s: seq<T>)
    ensures IsSubsequence(s, s)
  {
    if s != [] {
      SubsequenceReflexive(s[1..]);
    }
  }

  /** `s.filter(p)`: keeps, in order, exactly the elements satisfying `p`, each
      as many times as it occurs in `s`. */
  function Filter<T(==)>(s: seq<T>, p: T -> bool): (r: seq<T>)
    ensures |r| <= |s|
    ensures forall i :: 0 <= i < |r| ==> r[i] in s && p(r[i])
    ensures forall i :: 0 <= i < |s| && p(s[i]) ==> s[i] in r
    ensures IsSubsequence(r, s)
    ensures multiset(r) <= multiset(s)
    ensures forall i :: 0 <= i < |s| && p(s[i]) ==> multiset(r)[s[i]] == multiset(s)[s[i]]
  {
    if s == [] then []
    else
      var rest := Filter(s[1..], p);
      FilterCountsStep(s, p, rest);
      FilterMembersStep(s, p, rest);
      if p(s[0]) then [s[0]] + rest else rest
  }

  /** The membership and order step of `Filter`. */
  lemma FilterMembersStep<T>(s: seq<T>, p: T -> bool, rest: seq<T>)
    requires s != []
    requires |rest| <= |s| - 1
    requires forall i :: 0 <= i < |rest| ==> rest[i] in s[1..] && p(rest[i])
    requires forall i :: 1 <= i < |s| && p(s[i]) ==> s[i] in rest
    requires IsSubsequence(rest, s[1..])
    ensures var r := if p(s[0]) then [s[0]] + rest else rest;
            && |r| <= |s|
            && (forall i :: 0 <= i < |r| ==> r[i] in s && p(r[i]))
            && (forall i :: 0 <= i < |s| && p(s[i]) ==> s[i] in r)
            && IsSubsequence(r, s)
  {
    var r := if p(s[0]) then [s[0]] + rest else rest;
    forall i | 0 <= i < |s| && p(s[i]) ensures s[i] in r {
      if i > 0 {
        assert s[i] == s[1..][i - 1];
      }
    }
    if p(s[0]) {
      assert r[1..] == rest;
    }
  }

  /** The counting step of `Filter`: if the rest keeps every element satisfying
      `p` as often as `s[1..]` has it, so does deciding `s[0]` and then the rest. */
  lemma FilterCountsStep<T>(s: seq<T>, p: T -> bool, rest: seq<T>)
    requires s != []
    requires multiset(rest) <= multiset(s[1..])
    requires forall i :: 1 <= i < |s| && p(s[i]) ==> multiset(rest)[s[i]] == multiset(s[1..])[s[i]]
    ensures var r := if p(s[0]) then [s[0]] + rest else rest;
            multiset(r) <= multiset(s) && forall i :: 0 <= i < |s| && p(s[i]) ==> multiset(r)[s[i]] == multiset(s)[s[i]]
  {
    assert s == [s[0]] + s[1..];
    var r := if p(s[0]) then [s[0]] + rest else rest;
    forall i | 0 <= i < |s| && p(s[i]) ensures multiset(r)[s[i]] == multiset(s)[s[i]] {
      if s[i] == s[0] {
        if 1 <= i {
          assert multiset(rest)[s[i]] == multiset(s[1..])[s[i]];
        } else if exists j :: 1 <= j < |s| && s[j] == s[0] {
          var j :| 1 <= j < |s| && s[j] == s[0];
          assert multiset(rest)[s[j]] == multiset(s[1..])[s[j]];
        } else {
          assert s[0] !in s[1..];
          assert s[0] !in rest;
        }
      } else {
        assert s[i] == s[1..][i - 1];
        assert multiset(rest)[s[i]] == multiset(s[1..])[s[i]];
      }
    }
  }

  /** One step of a filter: the first element is kept or dropped, then the rest. */
  lemma FilterCons<T>(s: seq<T>, p: T -> bool)
    requires s != []
    ensures Filter(s, p) == (if p(s[0]) then [s[0]] else []) + Filter(s[1..], p)
  {
  }

  /** A filter whose predicate holds everywhere returns the sequence itself. */
  lemma {:induction false} FilterKeepsAll<T>(s: seq<T>, p: T -> bool)
    requires forall i :: 0 <= i < |s| ==> p(s[i])
    ensures Filter(s, p) == s
  {
    if s != [] {
      FilterKeepsAll(s[1..], p);
    }
  }

  /** Two predicates that agree on every element filter alike. */
  lemma {:induction false} FilterAgrees<T>(s: seq<T>, p: T -> bool, q: T -> bool)
    requires forall i :: 0 <= i < |s| ==> p(s[i]) == q(s[i])
    ensures Filter(s, p) == Filter(s, q)
  {
    if s != [] {
      FilterAgrees(s[1..], p, q);
    }
  }

  /** `s.filter((_, i) => i !== index)`: drops the element at `index` when there is
      one; any other index (negative, too large) leaves `s` as it is. */
  function RemoveIndex<T>(s: seq<T>, index: int): (r: seq<T>)
    ensures r == if 0 <= index < |s| then s[..index] + s[index + 1..] else s
  {
    if s == [] then []
    else (if index == 0 then [] else [s[0]]) + RemoveIndex(s[1..], index - 1)
  }
}
