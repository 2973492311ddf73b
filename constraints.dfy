/** What an assignment of words to slots must satisfy. */
module Constraints {
  import opened Puzzle

  type Assignment = map<Variable, string>
  type Domains = map<Variable, seq<string>>

  /** Letter ov.0 of w1 equals letter ov.1 of w2. An offset past the end of a
      word counts as a mismatch. */
  predicate Agree(w1: string, w2: string, ov: Offsets)
  {
    ov.0 < |w1| && ov.1 < |w2| && w1[ov.0] == w2[ov.1]
  }

  /** Every assigned word has its slot's length. */
  predicate LengthsFit(a: Assignment)
  {
    forall v | v in a :: |a[v]| == v.length
  }

  /** No word is used by two slots. */
  predicate WordsDistinct(a: Assignment)
  {
    forall v1, v2 | v1 in a && v2 in a && v1 != v2 :: a[v1] != a[v2]
  }

  /** Every two assigned slots that overlap agree on the shared letter. */
  predicate OverlapsAgree(cw: Crossword, a: Assignment)
  {
    forall v1, v2 | v1 in a && v2 in a && v1 != v2 && (v1, v2) in cw.overlaps ::
      Agree(a[v1], a[v2], cw.overlaps[(v1, v2)])
  }

  predicate IsConsistent(cw: Crossword, a: Assignment)
  {
    LengthsFit(a) && WordsDistinct(a) && OverlapsAgree(cw, a)
  }

  /** Every slot in `vars` has a word. */
  predicate IsComplete(vars: set<Variable>, a: Assignment)
  {
    forall v | v in vars :: v in a
  }

  /** `b` keeps every binding of `a`. */
  predicate Extends(a: Assignment, b: Assignment)
  {
    forall v | v in a :: v in b && b[v] == a[v]
  }

  /** Every assigned word comes from its slot's domain. */
  predicate Drawn(d: Domains, a: Assignment)
  {
    forall v | v in a :: v in d && a[v] in d[v]
  }

  /** A filled crossword drawn from the domains `d`. */
  predicate IsSolution(cw: Crossword, d: Domains, a: Assignment)
  {
    a.Keys == d.Keys && Drawn(d, a) && IsConsistent(cw, a)
  }

  /** Removing bindings never breaks consistency: a branch that extends an
      inconsistent assignment can never become consistent. */
  lemma ConsistentRestrict(cw: Crossword, a: Assignment, b: Assignment)
    ensures Extends(a, b) && IsConsistent(cw, b) ==> IsConsistent(cw, a)
  {
  }

  /** No solution drawn from `d` keeps every binding of `a`. */
  ghost predicate DeadEnd(cw: Crossword, d: Domains, a: Assignment)
  {
    forall s :: IsSolution(cw, d, s) ==> !Extends(a, s)
  }

  /** An inconsistent partial assignment can never be completed. */
  lemma InconsistentDeadEnd(cw: Crossword, d: Domains, a: Assignment)
    requires !IsConsistent(cw, a)
    ensures DeadEnd(cw, d, a)
  {
    forall s | IsSolution(cw, d, s) ensures !Extends(a, s) {
      ConsistentRestrict(cw, a, s);
    }
  }

  /** No solution extending `a` gives slot v a word of `ws`. */
  ghost predicate Excluded(cw: Crossword, d: Domains, a: Assignment, v: Variable, ws: seq<string>)
  {
    forall s :: IsSolution(cw, d, s) && Extends(a, s) && v in s ==> s[v] !in ws
  }

  /** A word whose binding is a dead end joins the excluded words. */
  lemma ExcludedStep(cw: Crossword, d: Domains, a: Assignment, v: Variable, ws: seq<string>, k: nat)
    requires k < |ws| && v !in a
    requires Excluded(cw, d, a, v, ws[..k]) && DeadEnd(cw, d, a[v := ws[k]])
    ensures Excluded(cw, d, a, v, ws[..k + 1])
  {
    var w := ws[k];
    assert ws[..k + 1] == ws[..k] + [w];
    forall s | IsSolution(cw, d, s) && Extends(a, s) && v in s ensures s[v] != w {
      assert !Extends(a[v := w], s);
    }
  }

  /** Once every word of v's domain is excluded, `a` is itself a dead end. */
  lemma ExcludedAll(cw: Crossword, d: Domains, a: Assignment, v: Variable, ws: seq<string>)
    requires v in d && Excluded(cw, d, a, v, ws)
    requires forall w | w in d[v] :: w in ws
    ensures DeadEnd(cw, d, a)
  {
    forall s | IsSolution(cw, d, s) ensures !Extends(a, s) {
      assert s[v] in d[v];
    }
  }

  /** Binding a fresh slot of `d` leaves one slot fewer unbound. */
  lemma BindShrinks(d: Domains, a: Assignment, v: Variable, w: string)
    requires v in d && v !in a
    ensures |d.Keys - a[v := w].Keys| < |d.Keys - a.Keys|
  {
    assert d.Keys - a[v := w].Keys == (d.Keys - a.Keys) - {v};
  }

  /** Binding a fresh slot and then removing it restores the assignment. */
  lemma UnbindRestores(a: Assignment, v: Variable, w: string)
    requires v !in a
    ensures a[v := w] - {v} == a
  {
  }

  /** `b` completes `a` over the slots of `d`: it binds every slot, keeps
      every binding of `a`, draws each new word from its slot's domain, and
      is consistent whenever `a` is. */
  predicate Completes(cw: Crossword, d: Domains, a: Assignment, b: Assignment)
  {
    && b.Keys == d.Keys
    && Extends(a, b)
    && (forall u | u in b && u !in a :: b[u] in d[u])
    && (IsConsistent(cw, a) ==> IsConsistent(cw, b))
  }

  /** Completing a consistent one-slot extension completes the original. */
  lemma CompletesStep(cw: Crossword, d: Domains, a: Assignment, v: Variable, w: string, b: Assignment)
    requires v in d && v !in a && w in d[v]
    requires IsConsistent(cw, a[v := w]) && Completes(cw, d, a[v := w], b)
    ensures Completes(cw, d, a, b)
  {
    ConsistentRestrict(cw, a, b);
  }

  /** Completing the empty assignment yields a solution. */
  lemma CompletesEmpty(cw: Crossword, d: Domains, b: Assignment)
    requires Completes(cw, d, map[], b)
    ensures IsSolution(cw, d, b)
  {
  }
}
