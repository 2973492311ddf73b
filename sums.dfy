/** Sums of a natural-valued function over a finite set, in any order. */
module Sums {

  ghost function SetSum<T>(s: set<T>, f: T -> nat): nat
  {
    if s == {} then 0 else var x :| x in s; f(x) + SetSum(s - {x}, f)
  }

  /** The sum does not depend on which element is taken out first. */
  lemma {:induction false} SetSumRemove<T>(s: set<T>, f: T -> nat, x: T)
    requires x in s
    ensures SetSum(s, f) == f(x) + SetSum(s - {x}, f)
    decreases |s|
  {
    var y :| y in s && SetSum(s, f) == f(y) + SetSum(s - {y}, f);
    if y != x {
      SetSumRemove(s - {y}, f, x);
      SetSumRemove(s - {x}, f, y);
      assert s - {y} - {x} == s - {x} - {y};
    }
  }

  /** Adding an element adds its value. */
  lemma SetSumAdd<T>(s: set<T>, f: T -> nat, x: T)
    requires x !in s
    ensures SetSum(s + {x}, f) == SetSum(s, f) + f(x)
  {
    SetSumRemove(s + {x}, f, x);
    assert s + {x} - {x} == s;
  }

  /** Two functions that agree on the set have the same sum over it. */
  lemma {:induction false} SetSumCongruent<T>(s: set<T>, f: T -> nat, g: T -> nat)
    requires forall x | x in s :: f(x) == g(x)
    ensures SetSum(s, f) == SetSum(s, g)
    decreases |s|
  {
    if s != {} {
      var x :| x in s;
      SetSumRemove(s, f, x);
      SetSumRemove(s, g, x);
      SetSumCongruent(s - {x}, f, g);
    }
  }

  /** A sum of naturals is zero exactly when every term is. */
  lemma {:induction false} SetSumZero<T>(s: set<T>, f: T -> nat)
    ensures SetSum(s, f) == 0 <==> forall x | x in s :: f(x) == 0
    decreases |s|
  {
    if s != {} {
      var x :| x in s;
      SetSumRemove(s, f, x);
      SetSumZero(s - {x}, f);
    }
  }
}
