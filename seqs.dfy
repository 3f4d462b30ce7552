/** Order-preserving selection from a sequence, shared by the filter sets,
    the reminder job and the report. */
module Seqs {

  /** `a` is obtained from `b` by deleting elements: it keeps their order. */
  predicate IsSubsequence<T(==)>(a: seq<T>, b: seq<T>)
    decreases |b|
  {
    if a == [] then true
    else if b == [] then false
    else if a[0] == b[0] then IsSubsequence(a[1..], b[1..])
    else IsSubsequence(a, b[1..])
  }

  /** The elements of `s` that satisfy `p`, in their original order. */
  function Select<T(==)>(s: seq<T>, p: T -> bool): (r: seq<T>)
    ensures |r| <= |s|
    ensures forall i :: 0 <= i < |r| ==> r[i] in s && p(r[i])
    ensures forall i :: 0 <= i < |s| && p(s[i]) ==> s[i] in r
    ensures IsSubsequence(r, s)
  {
    if s == [] then []
    else if p(s[0]) then
      var rest := Select(s[1..], p);
      assert ([s[0]] + rest)[1..] == rest;
      [s[0]] + rest
    else
      var rest := Select(s[1..], p);
      assert rest != [] ==> p(rest[0]) && rest[0] != s[0];
      rest
  }

  /** Selecting from a concatenation selects from each part. */
  lemma {:induction false} SelectAppend<T>(a: seq<T>, b: seq<T>, p: T -> bool)
    ensures Select(a + b, p) == Select(a, p) + Select(b, p)
  {
    if a == [] {
      assert a + b == b;
    } else {
      assert (a + b)[0] == a[0];
      assert (a + b)[1..] == a[1..] + b;
      SelectAppend(a[1..], b, p);
    }
  }

  /** `n` copies of `x`. */
  function Repeat<T>(x: T, n: nat): (r: seq<T>)
    ensures |r| == n
    ensures forall i :: 0 <= i < n ==> r[i] == x
  {
    if n == 0 then [] else [x] + Repeat(x, n - 1)
  }

  lemma RepeatCons<T>(x: T, n: nat)
    requires n > 0
    ensures Repeat(x, n) == [x] + Repeat(x, n - 1)
  {
  }

  lemma ConsAppend<T>(x: T, a: seq<T>, b: seq<T>)
    ensures ([x] + a) + b == [x] + (a + b)
  {
  }

  /** Selecting from copies of one element keeps all of them or none. */
  lemma {:induction false} SelectRepeat<T>(x: T, n: nat, p: T -> bool)
    ensures Select(Repeat(x, n), p) == if p(x) then Repeat(x, n) else []
  {
    if n > 0 {
      assert Repeat(x, n)[1..] == Repeat(x, n - 1);
      SelectRepeat(x, n - 1, p);
    }
  }

  /** Two predicates that agree on the elements select the same elements. */
  lemma {:induction false} SelectCongruent<T>(s: seq<T>, p: T -> bool, q: T -> bool)
    requires forall i :: 0 <= i < |s| ==> p(s[i]) == q(s[i])
    ensures Select(s, p) == Select(s, q)
  {
    if s != [] {
      SelectCongruent(s[1..], p, q);
    }
  }

  /** Selecting by `p` and then by `q` is selecting by their conjunction. */
  lemma {:induction false} SelectSelect<T>(s: seq<T>, p: T -> bool, q: T -> bool, pq: T -> bool)
    requires forall i :: 0 <= i < |s| ==> pq(s[i]) == (p(s[i]) && q(s[i]))
    ensures Select(Select(s, p), q) == Select(s, pq)
  {
    if s != [] {
      SelectSelect(s[1..], p, q, pq);
      if p(s[0]) {
        var rest := Select(s[1..], p);
        assert Select(s, p) == [s[0]] + rest;
        assert ([s[0]] + rest)[0] == s[0] && ([s[0]] + rest)[1..] == rest;
      }
    }
  }
}
