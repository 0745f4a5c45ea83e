/** The two result shapes the modelled code returns, Rust's `Option` and `Result`, and one list search. */
module Wrappers {

  datatype Option<+T> = None | Some(value: T)

  datatype Result<+T, +E> = Ok(value: T) | Err(error: E)

  /** `iter().find_map(f)`: the first answer `f` gives, in list order. */
  function FindMap<T, U>(xs: seq<T>, f: T -> Option<U>): Option<U> {
    if xs == [] then None
    else if f(xs[0]).Some? then f(xs[0])
    else FindMap(xs[1..], f)
  }

  lemma {:induction false} FindMapAppend<T, U>(xs: seq<T>, ys: seq<T>, f: T -> Option<U>)
    ensures FindMap(xs + ys, f) == if FindMap(xs, f).Some? then FindMap(xs, f) else FindMap(ys, f)
  {
    if xs == [] {
      assert xs + ys == ys;
    } else {
      assert (xs + ys)[1..] == xs[1..] + ys;
      FindMapAppend(xs[1..], ys, f);
    }
  }

  /** The answer is that of the first element that has one. */
  lemma {:induction false} FindMapIsFirst<T, U>(xs: seq<T>, f: T -> Option<U>) returns (k: nat)
    ensures k <= |xs| && forall i :: 0 <= i < k ==> f(xs[i]).None?
    ensures FindMap(xs, f) == if k < |xs| then f(xs[k]) else None
    ensures k < |xs| ==> f(xs[k]).Some?
  {
    if xs == [] {
      k := 0;
    } else if f(xs[0]).Some? {
      k := 0;
    } else {
      var k' := FindMapIsFirst(xs[1..], f);
      k := k' + 1;
      forall i | 0 <= i < k
        ensures f(xs[i]).None?
      {
        if i > 0 {
          assert xs[1..][i - 1] == xs[i];
        }
      }
    }
  }

  /** Where all that answer give the same answer, the order of the list does not matter. */
  lemma FindMapPermuted<T, U>(xs: seq<T>, ys: seq<T>, f: T -> Option<U>)
    requires multiset(xs) == multiset(ys)
    requires forall i, k :: 0 <= i < k < |xs| && f(xs[i]).Some? && f(xs[k]).Some? ==> f(xs[i]) == f(xs[k])
    ensures FindMap(xs, f) == FindMap(ys, f)
  {
    var a := FindMapIsFirst(xs, f);
    var b := FindMapIsFirst(ys, f);
    if a < |xs| {
      assert xs[a] in multiset(ys);
      var i :| 0 <= i < |ys| && ys[i] == xs[a];
      assert b <= i;
    }
    if b < |ys| {
      assert ys[b] in multiset(xs);
      var k :| 0 <= k < |xs| && xs[k] == ys[b];
      assert a <= k;
    }
  }

  /** The list with its i-th and k-th elements moved to the front, in either order, is a permutation of it. */
  lemma FrontedIsPermutation<T>(xs: seq<T>, i: nat, k: nat, rest: seq<T>)
    requires i < k < |xs| && rest == xs[..i] + xs[i + 1..k] + xs[k + 1..]
    ensures multiset([xs[i], xs[k]] + rest) == multiset(xs) == multiset([xs[k], xs[i]] + rest)
  {
    var a, b, c := xs[..i], xs[i + 1..k], xs[k + 1..];
    assert xs == a + ([xs[i]] + (b + ([xs[k]] + c)));
    assert multiset(xs) == multiset(a) + multiset([xs[i]]) + multiset(b) + multiset([xs[k]]) + multiset(c);
    assert multiset(rest) == multiset(a) + multiset(b) + multiset(c);
    assert multiset([xs[i], xs[k]]) == multiset([xs[k], xs[i]]) == multiset([xs[i]]) + multiset([xs[k]]);
  }
}
