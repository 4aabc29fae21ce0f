/** Sequences flattened and summed element by element. */
module Traces {

  function FlatMap<A, B>(f: A -> seq<B>, s: seq<A>): seq<B> {
    if s == [] then [] else f(s[0]) + FlatMap(f, s[1..])
  }

  function Total<A>(f: A -> int, s: seq<A>): int {
    if s == [] then 0 else f(s[0]) + Total(f, s[1..])
  }

  lemma FlatMapOne<A, B>(f: A -> seq<B>, x: A)
    ensures FlatMap(f, [x]) == f(x)
  {
    assert [x][1..] == [];
  }

  lemma TotalOne<A>(f: A -> int, x: A)
    ensures Total(f, [x]) == f(x)
  {
    assert [x][1..] == [];
  }

  lemma {:induction false} FlatMapAppend<A, B>(f: A -> seq<B>, a: seq<A>, b: seq<A>)
    ensures FlatMap(f, a + b) == FlatMap(f, a) + FlatMap(f, b)
  {
    if a == [] {
      assert a + b == b;
    } else {
      assert (a + b)[0] == a[0] && (a + b)[1..] == a[1..] + b;
      FlatMapAppend(f, a[1..], b);
    }
  }

  lemma {:induction false} TotalAppend<A>(f: A -> int, a: seq<A>, b: seq<A>)
    ensures Total(f, a + b) == Total(f, a) + Total(f, b)
  {
    if a == [] {
      assert a + b == b;
    } else {
      assert (a + b)[0] == a[0] && (a + b)[1..] == a[1..] + b;
      TotalAppend(f, a[1..], b);
    }
  }

  /** Two passes are one. */
  lemma {:induction false} FlatMapFuse<A, B, C>(f: A -> seq<B>, g: B -> seq<C>, h: A -> seq<C>, s: seq<A>)
    requires forall x :: x in s ==> h(x) == FlatMap(g, f(x))
    ensures FlatMap(g, FlatMap(f, s)) == FlatMap(h, s)
  {
    if s != [] {
      FlatMapAppend(g, f(s[0]), FlatMap(f, s[1..]));
      FlatMapFuse(f, g, h, s[1..]);
    }
  }

  lemma {:induction false} TotalFuse<A, B>(f: A -> seq<B>, g: B -> int, h: A -> int, s: seq<A>)
    requires forall x :: x in s ==> h(x) == Total(g, f(x))
    ensures Total(g, FlatMap(f, s)) == Total(h, s)
  {
    if s != [] {
      TotalAppend(g, f(s[0]), FlatMap(f, s[1..]));
      TotalFuse(f, g, h, s[1..]);
    }
  }

  /** A sum depends only on the values at the elements. */
  lemma {:induction false} TotalSame<A>(f: A -> int, g: A -> int, s: seq<A>)
    requires forall x :: x in s ==> f(x) == g(x)
    ensures Total(f, s) == Total(g, s)
  {
    if s != [] { TotalSame(f, g, s[1..]); }
  }

  lemma {:induction false} TotalOfBits<A>(f: A -> int, s: seq<A>)
    requires forall x :: x in s ==> 0 <= f(x) <= 1
    ensures 0 <= Total(f, s) <= |s|
  {
    if s != [] { TotalOfBits(f, s[1..]); }
  }
}
