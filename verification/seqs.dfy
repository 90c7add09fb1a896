/**
 Sequence helpers shared by the model. `FilterMap` is the shape of every list
 comprehension in the script, `[g(x) for x in s if p(x)]`: each element either
 contributes one value, in order, or nothing.
 */
module Seqs {
  import opened Options

  /** The values `f` produces over `s`, in the order of `s`, skipping `None`. */
  function FilterMap<T, U>(s: seq<T>, f: T -> Option<U>): (r: seq<U>)
    ensures |r| <= |s|
    ensures forall y :: y in r ==> exists x :: x in s && f(x) == Some(y)
  {
    if |s| == 0 then []
    else
      var rest := FilterMap(s[1..], f);
      match f(s[0])
      case Some(y) => [y] + rest
      case None => rest
  }

  /** Exactly one of the three options holds a value. */
  predicate ExactlyOne<A, B, C>(a: Option<A>, b: Option<B>, c: Option<C>)
  {
    (if a.Some? then 1 else 0) + (if b.Some? then 1 else 0) + (if c.Some? then 1 else 0) == 1
  }

  /** Filtering distributes over concatenation: the output keeps the input's order. */
  lemma {:induction false} FilterMapAppend<T, U>(a: seq<T>, b: seq<T>, f: T -> Option<U>)
    ensures FilterMap(a + b, f) == FilterMap(a, f) + FilterMap(b, f)
  {
    if |a| == 0 {
      assert a + b == b;
    } else {
      assert (a + b)[1..] == a[1..] + b;
      FilterMapAppend(a[1..], b, f);
    }
  }

  /** A one-element input yields its value, if any. */
  lemma FilterMapSingle<T, U>(x: T, f: T -> Option<U>)
    ensures FilterMap([x], f) == if f(x).Some? then [f(x).value] else []
  {
    assert [x][1..] == [];
  }

  /** The value contributed by `s[i]` sits right after the values contributed by `s[..i]`. */
  lemma FilterMapPosition<T, U>(s: seq<T>, f: T -> Option<U>, i: int)
    requires 0 <= i < |s| && f(s[i]).Some?
    ensures |FilterMap(s[..i], f)| < |FilterMap(s, f)|
    ensures FilterMap(s, f)[|FilterMap(s[..i], f)|] == f(s[i]).value
  {
    assert s == s[..i] + s[i..];
    FilterMapAppend(s[..i], s[i..], f);
    assert s[i..][0] == s[i];
  }

  /** Order preservation: of two kept elements, the earlier one's value comes first. */
  lemma FilterMapOrder<T, U>(s: seq<T>, f: T -> Option<U>, i: int, j: int)
    requires 0 <= i < j < |s| && f(s[i]).Some? && f(s[j]).Some?
    ensures |FilterMap(s[..i], f)| < |FilterMap(s[..j], f)|
  {
    assert s[..j] == s[..i] + s[i..j];
    FilterMapAppend(s[..i], s[i..j], f);
    assert s[i..j][0] == s[i];
  }

  /** A value is produced exactly when some element of `s` produces it. */
  lemma FilterMapMembers<T, U>(s: seq<T>, f: T -> Option<U>)
    ensures forall y :: y in FilterMap(s, f) <==> exists x :: x in s && f(x) == Some(y)
  {
    forall y | exists x :: x in s && f(x) == Some(y)
      ensures y in FilterMap(s, f)
    {
      var x :| x in s && f(x) == Some(y);
      var i :| 0 <= i < |s| && s[i] == x;
      FilterMapPosition(s, f, i);
    }
  }

  /** Two selectors that agree on every element select the same values. */
  lemma {:induction false} FilterMapCongruent<T, U>(s: seq<T>, f: T -> Option<U>, g: T -> Option<U>)
    requires forall x :: x in s ==> f(x) == g(x)
    ensures FilterMap(s, f) == FilterMap(s, g)
  {
    if |s| > 0 {
      FilterMapCongruent(s[1..], f, g);
    }
  }

  /** A selector that keeps every element unchanged returns its input. */
  lemma {:induction false} FilterMapIdentity<T>(s: seq<T>, f: T -> Option<T>)
    requires forall x :: x in s ==> f(x) == Some(x)
    ensures FilterMap(s, f) == s
  {
    if |s| > 0 {
      FilterMapIdentity(s[1..], f);
    }
  }

  /** A selector that keeps nothing returns nothing. */
  lemma {:induction false} FilterMapNothing<T, U>(s: seq<T>, f: T -> Option<U>)
    requires forall x :: x in s ==> f(x).None?
    ensures FilterMap(s, f) == []
  {
    if |s| > 0 {
      FilterMapNothing(s[1..], f);
    }
  }

  /** A selector that keeps elements as they are, or drops them, keeps every occurrence of a kept element. */
  lemma {:induction false} FilterMapCount<T>(s: seq<T>, f: T -> Option<T>, x: T)
    requires forall y :: f(y).Some? ==> f(y) == Some(y)
    requires f(x).Some?
    ensures multiset(FilterMap(s, f))[x] == multiset(s)[x]
  {
    if |s| > 0 {
      FilterMapCount(s[1..], f, x);
      assert s == [s[0]] + s[1..];
    }
  }

  /** Three selectors that split every element between them account for all of `s`. */
  lemma {:induction false} FilterMapPartition<T, A, B, C>(s: seq<T>, f: T -> Option<A>, g: T -> Option<B>, h: T -> Option<C>)
    requires forall x :: x in s ==> ExactlyOne(f(x), g(x), h(x))
    ensures |FilterMap(s, f)| + |FilterMap(s, g)| + |FilterMap(s, h)| == |s|
  {
    if |s| > 0 {
      assert s[0] in s;
      FilterMapPartition(s[1..], f, g, h);
    }
  }
}
