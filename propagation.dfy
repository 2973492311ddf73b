/** Node consistency and arc consistency, stated on domain values. */
module Propagation {
  import opened Puzzle
  import opened Sums
  import opened Constraints

  /** The words of `ws` whose length is `n`, in their original order. */
  function FitLength(ws: seq<string>, n: nat): seq<string>
  {
    if ws == [] then []
    else (if |ws[0]| == n then [ws[0]] else []) + FitLength(ws[1..], n)
  }

  lemma {:induction false} FitLengthMembers(ws: seq<string>, n: nat, w: string)
    ensures w in FitLength(ws, n) <==> w in ws && |w| == n
  {
    if ws != [] {
      FitLengthMembers(ws[1..], n, w);
      assert ws == [ws[0]] + ws[1..];
    }
  }

  lemma {:induction false} FitLengthIdempotent(ws: seq<string>, n: nat)
    ensures FitLength(FitLength(ws, n), n) == FitLength(ws, n)
  {
    if ws != [] {
      FitLengthIdempotent(ws[1..], n);
      var rest := FitLength(ws[1..], n);
      if |ws[0]| == n {
        var r := [ws[0]] + rest;
        assert r[0] == ws[0] && r[1..] == rest;
        assert FitLength(ws, n) == r;
        assert FitLength(r, n) == [r[0]] + FitLength(r[1..], n);
      } else {
        assert FitLength(ws, n) == rest;
      }
    }
  }

  /** Every slot's domain filtered to the words of the slot's length. */
  function NodeConsistentDomains(d: Domains): Domains
  {
    map v | v in d :: FitLength(d[v], v.length)
  }

  /** Every word in every domain has its slot's length. */
  predicate NodeConsistent(d: Domains)
  {
    forall v, w | v in d && w in d[v] :: |w| == v.length
  }

  /** `d` has the same slots as `d0` and each domain only lost words. */
  predicate Narrower(d0: Domains, d: Domains)
  {
    d.Keys == d0.Keys && forall v, w | v in d && w in d[v] :: w in d0[v]
  }

  /** The length filter keeps exactly the words of the right length. */
  lemma NodeConsistencyFilters(d: Domains)
    ensures NodeConsistent(NodeConsistentDomains(d))
    ensures Narrower(d, NodeConsistentDomains(d))
    ensures forall v, w | v in d && w in d[v] && |w| == v.length :: w in NodeConsistentDomains(d)[v]
  {
    assert NodeConsistentDomains(d).Keys == d.Keys;
    forall v, w | v in d
      ensures w in NodeConsistentDomains(d)[v] <==> w in d[v] && |w| == v.length
    {
      FitLengthMembers(d[v], v.length, w);
    }
  }

  /** Re-running the length filter changes nothing. */
  lemma NodeConsistencyIdempotent(d: Domains)
    ensures NodeConsistentDomains(NodeConsistentDomains(d)) == NodeConsistentDomains(d)
  {
    forall v | v in d
      ensures FitLength(FitLength(d[v], v.length), v.length) == FitLength(d[v], v.length)
    {
      FitLengthIdempotent(d[v], v.length);
    }
  }

  /** The length filter discards no word of any solution. */
  lemma NodeConsistencyKeepsSolutions(cw: Crossword, d: Domains, a: Assignment)
    requires IsSolution(cw, d, a)
    ensures IsSolution(cw, NodeConsistentDomains(d), a)
  {
    forall v | v in a ensures a[v] in NodeConsistentDomains(d)[v] {
      FitLengthMembers(d[v], v.length, a[v]);
    }
  }

  /** Some word of `ys` agrees with `w` at the offsets. */
  predicate Supported(w: string, ys: seq<string>, ov: Offsets)
  {
    exists w2 | w2 in ys :: Agree(w, w2, ov)
  }

  /** The words of `xs` that have a partner in `ys`, in their original order. */
  function Revised(xs: seq<string>, ys: seq<string>, ov: Offsets): seq<string>
  {
    if xs == [] then []
    else
      var last := xs[|xs| - 1];
      Revised(xs[..|xs| - 1], ys, ov) + (if Supported(last, ys, ov) then [last] else [])
  }

  lemma {:induction false} RevisedMembers(xs: seq<string>, ys: seq<string>, ov: Offsets, w: string)
    ensures w in Revised(xs, ys, ov) <==> w in xs && Supported(w, ys, ov)
  {
    if xs != [] {
      RevisedMembers(xs[..|xs| - 1], ys, ov, w);
      assert xs == xs[..|xs| - 1] + [xs[|xs| - 1]];
    }
  }

  /** Revision never grows a domain, and keeps its size exactly when every
      word has a partner, in which case it keeps the domain as it was. */
  lemma {:induction false} RevisedSize(xs: seq<string>, ys: seq<string>, ov: Offsets)
    ensures |Revised(xs, ys, ov)| <= |xs|
    ensures |Revised(xs, ys, ov)| == |xs| <==> forall w | w in xs :: Supported(w, ys, ov)
    ensures |Revised(xs, ys, ov)| == |xs| ==> Revised(xs, ys, ov) == xs
  {
    if xs != [] {
      var init := xs[..|xs| - 1];
      RevisedSize(init, ys, ov);
      assert xs == init + [xs[|xs| - 1]];
      if !Supported(xs[|xs| - 1], ys, ov) {
        assert |Revised(xs, ys, ov)| < |xs|;
      }
    }
  }

  /** The domains after revising x against y; unchanged when x and y do not overlap. */
  function ReviseDomains(cw: Crossword, d: Domains, x: Variable, y: Variable): Domains
  {
    if x in d && y in d && (x, y) in cw.overlaps
    then d[x := Revised(d[x], d[y], cw.overlaps[(x, y)])]
    else d
  }

  /** Revision only removes words, and only from x. */
  lemma ReviseNarrows(cw: Crossword, d: Domains, x: Variable, y: Variable)
    ensures Narrower(d, ReviseDomains(cw, d, x, y))
    ensures forall v | v in d && v != x :: ReviseDomains(cw, d, x, y)[v] == d[v]
    ensures NodeConsistent(d) ==> NodeConsistent(ReviseDomains(cw, d, x, y))
  {
    if x in d && y in d && (x, y) in cw.overlaps {
      forall w ensures w in ReviseDomains(cw, d, x, y)[x] ==> w in d[x] {
        RevisedMembers(d[x], d[y], cw.overlaps[(x, y)], w);
      }
    }
  }

  /** Every word in x's domain has a partner in y's domain (vacuous when x and
      y do not overlap). */
  predicate ArcConsistentAt(cw: Crossword, d: Domains, x: Variable, y: Variable)
  {
    x in d && y in d && (x, y) in cw.overlaps ==>
      forall w | w in d[x] :: Supported(w, d[y], cw.overlaps[(x, y)])
  }

  /** Every arc between neighbours is consistent. */
  predicate ArcConsistent(cw: Crossword, d: Domains)
  {
    forall x, y | x in d && y in Neighbors(cw, x) :: ArcConsistentAt(cw, d, x, y)
  }

  /** After revising x against y, the arc (x, y) is consistent. */
  lemma ReviseMakesArcConsistent(cw: Crossword, d: Domains, x: Variable, y: Variable)
    requires WellFormed(cw)
    ensures ArcConsistentAt(cw, ReviseDomains(cw, d, x, y), x, y)
  {
    if x in d && y in d && (x, y) in cw.overlaps {
      var ov := cw.overlaps[(x, y)];
      forall w | w in ReviseDomains(cw, d, x, y)[x] ensures Supported(w, d[y], ov) {
        RevisedMembers(d[x], d[y], ov, w);
      }
    }
  }

  /** Revising x against y keeps every consistent arc (a, b) consistent, except
      possibly arcs into x from slots other than y: a word removed from x had no
      partner in y, so it was no partner of any word of y either. */
  lemma RevisePreservesArc(cw: Crossword, d: Domains, x: Variable, y: Variable, a: Variable, b: Variable)
    requires WellFormed(cw)
    requires ArcConsistentAt(cw, d, a, b)
    requires b != x || a == y
    ensures ArcConsistentAt(cw, ReviseDomains(cw, d, x, y), a, b)
  {
    var r := ReviseDomains(cw, d, x, y);
    ReviseNarrows(cw, d, x, y);
    if a in r && b in r && (a, b) in cw.overlaps && x in d && y in d && (x, y) in cw.overlaps {
      var ov := cw.overlaps[(x, y)];
      if b == x {
        // a == y: every word of y keeps the partner it had in x
        forall w | w in r[y] ensures Supported(w, r[x], cw.overlaps[(y, x)]) {
          var w2 :| w2 in d[x] && Agree(w, w2, cw.overlaps[(y, x)]);
          assert Agree(w2, w, ov);
          RevisedMembers(d[x], d[y], ov, w2);
        }
      } else {
        forall w | w in r[a] ensures Supported(w, r[b], cw.overlaps[(a, b)]) {
          assert w in d[a];
        }
      }
    }
  }

  /** A consistent arc other than (x, y) stays consistent after revising x
      against y, unless it is an arc (z, x) from a neighbour z of x other
      than y and x's domain shrank. */
  lemma ArcSurvivesRevise(cw: Crossword, d: Domains, x: Variable, y: Variable, a: Variable, b: Variable)
    requires WellFormed(cw)
    requires ArcConsistentAt(cw, d, a, b)
    requires ReviseDomains(cw, d, x, y) != d ==> b != x || a == y || a !in Neighbors(cw, x)
    ensures ArcConsistentAt(cw, ReviseDomains(cw, d, x, y), a, b)
  {
    if ReviseDomains(cw, d, x, y) != d {
      if b != x || a == y {
        RevisePreservesArc(cw, d, x, y, a, b);
      } else {
        // (a, x) cannot overlap: by symmetry a would be a neighbour of x
        assert (a, b) !in cw.overlaps;
      }
    }
  }

  /** One AC-3 step keeps the worklist invariant: every tracked arc is either
      still pending or consistent. The popped arc (x, y) becomes consistent;
      when x's domain shrank, the arcs (z, x) for z other than y are pending
      again, and no other consistent arc can lose support. */
  lemma WorklistStep(cw: Crossword, d: Domains, x: Variable, y: Variable,
                     tracked: set<Arc>, rest: seq<Arc>, work: seq<Arc>)
    requires WellFormed(cw)
    requires forall p | p in tracked :: p in rest + [(x, y)] || ArcConsistentAt(cw, d, p.0, p.1)
    requires forall p | p in rest :: p in work
    requires ReviseDomains(cw, d, x, y) != d ==> forall z | z in Neighbors(cw, x) - {y} :: (z, x) in work
    ensures forall p | p in tracked :: p in work || ArcConsistentAt(cw, ReviseDomains(cw, d, x, y), p.0, p.1)
  {
    ReviseMakesArcConsistent(cw, d, x, y);
    forall p | p in tracked && p !in work && p != (x, y)
      ensures ArcConsistentAt(cw, ReviseDomains(cw, d, x, y), p.0, p.1)
    {
      assert p !in rest + [(x, y)];
      ArcSurvivesRevise(cw, d, x, y, p.0, p.1);
    }
  }

  /** Revision never removes a word that some solution uses. */
  lemma RevisePreservesSolutions(cw: Crossword, d: Domains, x: Variable, y: Variable, a: Assignment)
    requires WellFormed(cw)
    requires IsSolution(cw, d, a)
    ensures IsSolution(cw, ReviseDomains(cw, d, x, y), a)
  {
    if x in d && y in d && (x, y) in cw.overlaps {
      var ov := cw.overlaps[(x, y)];
      assert x != y && Agree(a[x], a[y], ov);
      RevisedMembers(d[x], d[y], ov, a[x]);
    }
  }

  /** An empty domain admits no solution. */
  lemma EmptyDomainNoSolution(cw: Crossword, d: Domains, x: Variable)
    requires x in d && d[x] == []
    ensures forall a :: !IsSolution(cw, d, a)
  {
  }

  /** The total number of words over all domains, AC-3's termination measure. */
  ghost function TotalSize(d: Domains): nat
  {
    SetSum(d.Keys, v => if v in d then |d[v]| else 0)
  }

  lemma ShrinkDecreasesTotal(d: Domains, x: Variable, ws: seq<string>)
    requires x in d && |ws| < |d[x]|
    ensures TotalSize(d[x := ws]) < TotalSize(d)
  {
    var d' := d[x := ws];
    assert d'.Keys == d.Keys;
    var f := v => if v in d then |d[v]| else 0;
    var g := v => if v in d' then |d'[v]| else 0;
    SetSumRemove(d.Keys, f, x);
    SetSumRemove(d.Keys, g, x);
    SetSumCongruent(d.Keys - {x}, f, g);
  }
}
