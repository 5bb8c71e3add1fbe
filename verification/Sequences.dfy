/** Facts about concatenation. */
module Sequences {

  lemma ConcatAssoc<T>(a: seq<T>, b: seq<T>, c: seq<T>)
    ensures (a + b) + c == a + (b + c)
  {
  }

  /** The pieces one after the other. */
  function Concat<T>(ps: seq<seq<T>>): seq<T> {
    if ps == [] then [] else Concat(ps[..|ps| - 1]) + ps[|ps| - 1]
  }

  lemma ConcatSnoc<T>(ps: seq<seq<T>>, x: seq<T>)
    ensures Concat(ps + [x]) == Concat(ps) + x
  {
    assert (ps + [x])[..|ps|] == ps;
  }

  lemma {:induction false} ConcatAppend<T>(a: seq<seq<T>>, b: seq<seq<T>>)
    ensures Concat(a + b) == Concat(a) + Concat(b)
    decreases |b|
  {
    if b == [] {
      assert a + b == a;
    } else {
      var init, x := b[..|b| - 1], b[|b| - 1];
      ConcatAppend(a, init);
      assert b == init + [x] && a + b == (a + init) + [x];
      ConcatSnoc(a + init, x);
      ConcatAssoc(Concat(a), Concat(init), x);
    }
  }

  lemma ConcatCons<T>(x: seq<T>, ps: seq<seq<T>>)
    ensures Concat([x] + ps) == x + Concat(ps)
  {
    ConcatSnoc([], x);
    assert [] + [x] == [x];
    ConcatAppend([x], ps);
  }
}
