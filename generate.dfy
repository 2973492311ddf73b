/** The crossword CSP solver: node consistency, AC-3, and backtracking search
    with the minimum-remaining-values and least-constraining-value heuristics. */
module Generate {
  import opened Puzzle
  import opened Constraints
  import opened Propagation
  import opened Search
  import opened Grid

  /** The mapping the search grows and rolls back; one object is shared by
      every level of the recursion. */
  class PartialAssignment {
    var bindings: Assignment

    constructor ()
      ensures bindings == map[]
    {
      bindings := map[];
    }
  }

  class CrosswordCreator {
    const crossword: Crossword
    var domains: Domains

    ghost predicate Valid()
      reads this
    {
      WellFormed(crossword) && domains.Keys == crossword.variables
    }

    /** Every slot starts with the whole vocabulary. */
    constructor (crossword: Crossword)
      requires WellFormed(crossword)
      ensures Valid() && this.crossword == crossword
      ensures domains == map v | v in crossword.variables :: crossword.words
    {
      this.crossword := crossword;
      domains := map v | v in crossword.variables :: crossword.words;
    }

    /** Filters every domain to the words of its slot's length. */
    method EnforceNodeConsistency()
      requires Valid()
      modifies this
      ensures Valid()
      ensures domains == NodeConsistentDomains(old(domains))
    {
      var todo := domains.Keys;
      while todo != {}
        invariant todo <= domains.Keys && domains.Keys == old(domains).Keys
        invariant forall v | v in domains ::
                    domains[v] == if v in todo then old(domains)[v] else FitLength(old(domains)[v], v.length)
        decreases todo
      {
        var v :| v in todo;
        domains := domains[v := FitLength(domains[v], v.length)];
        todo := todo - {v};
      }
    }

    /** Removes from x's domain every word with no partner in y's domain and
        reports whether the domain changed. */
    method Revise(x: Variable, y: Variable) returns (revised: bool)
      requires Valid() && x in domains && y in domains
      modifies this
      ensures Valid()
      ensures domains == ReviseDomains(crossword, old(domains), x, y)
      ensures revised <==> domains != old(domains)
      ensures revised <==> |domains[x]| < |old(domains)[x]|
    {
      if (x, y) in crossword.overlaps {
        var intersection := crossword.overlaps[(x, y)];
        var xs, ys := domains[x], domains[y];
        var num := |xs|;
        var keep: seq<string> := [];
        for i := 0 to |xs|
          invariant keep == Revised(xs[..i], ys, intersection)
        {
          var xWord := xs[i];
          assert xs[..i + 1][..i] == xs[..i] && xs[..i + 1][i] == xWord;
          for k := 0 to |ys|
            invariant keep == Revised(xs[..i], ys, intersection)
            invariant forall m | 0 <= m < k :: !Agree(xWord, ys[m], intersection)
          {
            if Agree(xWord, ys[k], intersection) {
              keep := keep + [xWord];
              break;
            }
          }
        }
        assert xs[..|xs|] == xs;
        RevisedSize(xs, ys, intersection);
        domains := domains[x := keep];
        return |keep| != num;
      }
      return false;
    }

    /** Every arc between neighbouring slots, the default AC-3 worklist. */
    method NeighborArcs() returns (work: seq<Arc>)
      requires Valid()
      ensures forall p | p in work :: p.0 in domains && p.1 in domains
      ensures forall x, y | x in domains && y in Neighbors(crossword, x) :: (x, y) in work
      ensures forall p | p in work :: p.1 in Neighbors(crossword, p.0)
    {
      work := [];
      var todo := domains.Keys;
      while todo != {}
        invariant todo <= domains.Keys
        invariant forall p | p in work :: p.0 in domains && p.1 in domains
        invariant forall p | p in work :: p.1 in Neighbors(crossword, p.0)
        invariant forall x, y | x in domains && x !in todo && y in Neighbors(crossword, x) :: (x, y) in work
        decreases todo
      {
        var x :| x in todo;
        var ns := Neighbors(crossword, x);
        while ns != {}
          invariant ns <= Neighbors(crossword, x)
          invariant forall p | p in work :: p.0 in domains && p.1 in domains
          invariant forall p | p in work :: p.1 in Neighbors(crossword, p.0)
          invariant forall u, y | u in domains && u !in todo && y in Neighbors(crossword, u) :: (u, y) in work
          invariant forall y | y in Neighbors(crossword, x) && y !in ns :: (x, y) in work
          decreases ns
        {
          var y :| y in ns;
          work := work + [(x, y)];
          ns := ns - {y};
        }
        todo := todo - {x};
      }
    }

    /** AC-3 over a LIFO worklist of arcs, by default every arc between
        neighbours. Returns false as soon as a domain becomes empty. */
    method AC3(arcs: Option<seq<Arc>>) returns (ok: bool)
      requires Valid()
      requires arcs.Some? ==> forall p | p in arcs.value :: p.0 in domains && p.1 in domains
      modifies this
      ensures Valid()
      ensures Narrower(old(domains), domains)
      ensures NodeConsistent(old(domains)) ==> NodeConsistent(domains)
      ensures forall a :: IsSolution(crossword, old(domains), a) ==> IsSolution(crossword, domains, a)
      ensures !ok ==> exists v | v in domains :: domains[v] == []
      ensures !ok ==> forall a :: !IsSolution(crossword, old(domains), a)
      ensures ok && arcs.None? ==> ArcConsistent(crossword, domains)
      ensures ok && arcs.Some? ==> forall p | p in arcs.value :: ArcConsistentAt(crossword, domains, p.0, p.1)
      ensures arcs.Some? && arcs.value == [] ==> ok && domains == old(domains)
    {
      var work: seq<Arc>;
      if arcs.None? {
        work := NeighborArcs();
      } else {
        work := arcs.value;
      }
      ghost var tracked := set p | p in work;
      ghost var initial := work;
      while |work| > 0
        invariant initial == [] ==> work == [] && domains == old(domains)
        invariant Valid()
        invariant Narrower(old(domains), domains)
        invariant NodeConsistent(old(domains)) ==> NodeConsistent(domains)
        invariant forall a :: IsSolution(crossword, old(domains), a) ==> IsSolution(crossword, domains, a)
        invariant forall p | p in work :: p.0 in domains && p.1 in domains
        invariant forall p | p in tracked :: p in work || ArcConsistentAt(crossword, domains, p.0, p.1)
        decreases TotalSize(domains), |work|
      {
        ghost var pending := work;
        var (x, y) := work[|work| - 1];
        work := work[..|work| - 1];
        assert pending == work + [(x, y)];
        ghost var rest := work;
        ghost var before := domains;
        var changed := Revise(x, y);
        ReviseNarrows(crossword, before, x, y);
        forall a | IsSolution(crossword, before, a) ensures IsSolution(crossword, domains, a) {
          RevisePreservesSolutions(crossword, before, x, y, a);
        }
        if changed {
          if |domains[x]| == 0 {
            EmptyDomainNoSolution(crossword, domains, x);
            return false;
          }
          ShrinkDecreasesTotal(before, x, domains[x]);
          var zs := Neighbors(crossword, x) - {y};
          while zs != {}
            invariant zs <= Neighbors(crossword, x) - {y}
            invariant forall p | p in rest :: p in work
            invariant forall p | p in work :: p.0 in domains && p.1 in domains
            invariant forall z | z in Neighbors(crossword, x) - {y} - zs :: (z, x) in work
            decreases zs
          {
            var z :| z in zs;
            work := work + [(z, x)];
            zs := zs - {z};
          }
        }
        WorklistStep(crossword, before, x, y, tracked, rest, work);
      }
      return true;
    }

    /** Whether every slot has a word. */
    method AssignmentComplete(assignment: Assignment) returns (complete: bool)
      ensures complete == IsComplete(domains.Keys, assignment)
    {
      var todo := domains.Keys;
      while todo != {}
        invariant todo <= domains.Keys
        invariant forall v | v in domains && v !in todo :: v in assignment
        decreases todo
      {
        var v :| v in todo;
        if v !in assignment {
          return false;
        }
        todo := todo - {v};
      }
      return true;
    }

    /** Whether the assigned words have their slots' lengths, are pairwise
        distinct, and agree wherever two assigned slots overlap. */
    method Consistent(assignment: Assignment) returns (ok: bool)
      ensures ok == IsConsistent(crossword, assignment)
    {
      var outer := assignment.Keys;
      while outer != {}
        invariant outer <= assignment.Keys
        invariant forall v1 | v1 in assignment && v1 !in outer :: |assignment[v1]| == v1.length
        invariant forall v1, v2 | v1 in assignment && v1 !in outer && v2 in assignment && v1 != v2 ::
                    assignment[v1] != assignment[v2]
        invariant forall v1, v2 | v1 in assignment && v1 !in outer && v2 in assignment && v1 != v2 && (v1, v2) in crossword.overlaps ::
                    Agree(assignment[v1], assignment[v2], crossword.overlaps[(v1, v2)])
        decreases outer
      {
        var v1 :| v1 in outer;
        if |assignment[v1]| != v1.length {
          return false;
        }
        var inner := assignment.Keys;
        while inner != {}
          invariant inner <= assignment.Keys
          invariant forall v2 | v2 in assignment && v2 !in inner && v1 != v2 :: assignment[v1] != assignment[v2]
          invariant forall v2 | v2 in assignment && v2 !in inner && v1 != v2 && (v1, v2) in crossword.overlaps ::
                      Agree(assignment[v1], assignment[v2], crossword.overlaps[(v1, v2)])
          decreases inner
        {
          var v2 :| v2 in inner;
          if v1 != v2 {
            if assignment[v1] == assignment[v2] {
              return false;
            }
            if (v1, v2) in crossword.overlaps {
              var intersection := crossword.overlaps[(v1, v2)];
              if !Agree(assignment[v1], assignment[v2], intersection) {
                return false;
              }
            }
          }
          inner := inner - {v2};
        }
        outer := outer - {v1};
      }
      return true;
    }

    /** The least-constraining-value score of `word` for slot `v`. */
    method CountRemovedInNeighbors(v: Variable, word: string, neighbors: set<Variable>) returns (count: nat)
      requires Valid() && neighbors <= Neighbors(crossword, v)
      ensures count == RemovedCount(crossword, domains, v, word, neighbors)
    {
      count := 0;
      var todo := neighbors;
      while todo != {}
        invariant todo <= neighbors
        invariant count == RemovedCount(crossword, domains, v, word, neighbors - todo)
        decreases todo
      {
        var neighbor :| neighbor in todo;
        var intersection := crossword.overlaps[(v, neighbor)];
        var ws := domains[neighbor];
        ghost var base := count;
        for k := 0 to |ws|
          invariant count == base + RemovedIn(ws[..k], word, intersection)
        {
          assert ws[..k + 1][..k] == ws[..k];
          if word == ws[k] || !Agree(word, ws[k], intersection) {
            count := count + 1;
          }
        }
        assert ws[..|ws|] == ws;
        RemovedCountAdd(crossword, domains, v, word, neighbors - todo, neighbor);
        assert (neighbors - todo) + {neighbor} == neighbors - (todo - {neighbor});
        todo := todo - {neighbor};
      }
      assert neighbors - todo == neighbors;
    }

    /** The domain of `v`, least constraining word first. */
    method OrderDomainValues(v: Variable, assignment: Assignment) returns (values: seq<string>)
      requires Valid() && v in domains
      ensures multiset(values) == multiset(domains[v])
      ensures LeastConstrainingFirst(crossword, domains, v, Neighbors(crossword, v) - assignment.Keys, values)
    {
      var neighbors := Neighbors(crossword, v) - assignment.Keys;
      var ws := domains[v];
      var key: map<string, nat> := map[];
      for k := 0 to |ws|
        invariant forall w | w in key :: key[w] == RemovedCount(crossword, domains, v, w, neighbors)
        invariant forall m | 0 <= m < k :: ws[m] in key
      {
        var c := CountRemovedInNeighbors(v, ws[k], neighbors);
        key := key[ws[k] := c];
      }
      SortByKeySorted(ws, key);
      values := SortByKey(ws, key);
      forall w | w in values ensures w in key {
        assert w in multiset(values);
      }
    }

    /** An unassigned slot with the fewest remaining words, the most
        neighbours breaking ties. */
    method SelectUnassignedVariable(assignment: Assignment) returns (v: Variable)
      requires Valid() && !IsComplete(domains.Keys, assignment)
      ensures v in domains && v !in assignment
      ensures FirstUnassigned(crossword, domains, assignment, v)
    {
      var unassigned := domains.Keys - assignment.Keys;
      var w :| w in domains && w !in assignment;
      assert w in unassigned;
      MrvMinimumExists(crossword, domains, unassigned);
      v :| v in unassigned && forall u | u in unassigned :: MrvFirst(crossword, domains, v, u);
    }

    /** Depth-first search that extends `assignment` in place. On success it
        returns the same object, now complete; on failure it returns null and
        leaves the bindings as they were on entry. */
    method Backtrack(assignment: PartialAssignment) returns (result: PartialAssignment?)
      requires Valid() && assignment.bindings.Keys <= domains.Keys
      modifies assignment
      ensures result == null ==> assignment.bindings == old(assignment.bindings)
      ensures result == null ==> DeadEnd(crossword, domains, old(assignment.bindings))
      ensures result != null ==> result == assignment
      ensures result != null ==> Completes(crossword, domains, old(assignment.bindings), assignment.bindings)
      decreases |domains.Keys - assignment.bindings.Keys|
    {
      var complete := AssignmentComplete(assignment.bindings);
      if complete {
        return assignment;
      }
      var v := SelectUnassignedVariable(assignment.bindings);
      var values := OrderDomainValues(v, assignment.bindings);
      ghost var entry := assignment.bindings;
      for k := 0 to |values|
        invariant assignment.bindings == entry
        invariant Excluded(crossword, domains, entry, v, values[..k])
      {
        var value := values[k];
        assert value in multiset(domains[v]);
        assignment.bindings := assignment.bindings[v := value];
        BindShrinks(domains, entry, v, value);
        var ok := Consistent(assignment.bindings);
        if ok {
          var r := Backtrack(assignment);
          if r != null {
            CompletesStep(crossword, domains, entry, v, value, assignment.bindings);
            return r;
          }
        } else {
          InconsistentDeadEnd(crossword, domains, assignment.bindings);
        }
        ExcludedStep(crossword, domains, entry, v, values, k);
        UnbindRestores(entry, v, value);
        assignment.bindings := assignment.bindings - {v};
      }
      assert values[..|values|] == values;
      forall w | w in domains[v] ensures w in values {
        assert w in multiset(values);
      }
      ExcludedAll(crossword, domains, entry, v, values);
      return null;
    }

    /** Length filter, then AC-3, then search from the empty assignment. The
        result of AC-3 is not consulted: an emptied domain makes the search
        fail on its own. */
    method Solve() returns (result: PartialAssignment?)
      requires Valid()
      modifies this
      ensures Valid() && NodeConsistent(domains) && Narrower(old(domains), domains)
      ensures forall a :: IsSolution(crossword, old(domains), a) ==> IsSolution(crossword, domains, a)
      ensures result != null ==> fresh(result) && IsSolution(crossword, domains, result.bindings)
      ensures result == null ==> forall a :: !IsSolution(crossword, old(domains), a)
    {
      ghost var d0 := domains;
      NodeConsistencyFilters(d0);
      forall a | IsSolution(crossword, d0, a) ensures IsSolution(crossword, NodeConsistentDomains(d0), a) {
        NodeConsistencyKeepsSolutions(crossword, d0, a);
      }
      EnforceNodeConsistency();
      ghost var d1 := domains;
      var arcConsistent := AC3(None);
      assert Narrower(d0, domains) by {
        forall v, w | v in domains && w in domains[v] ensures w in d0[v] {
          assert w in d1[v];
        }
      }
      var assignment := new PartialAssignment();
      result := Backtrack(assignment);
      if result != null {
        CompletesEmpty(crossword, domains, result.bindings);
      }
      assert forall a :: Extends(map[], a);
    }

    /** The grid of letters an assignment writes: row by row, None where no
        assigned slot has a letter. */
    method LetterGrid(assignment: Assignment) returns (letters: Letters)
      requires InGrid(crossword)
      requires forall v | v in assignment :: v in crossword.variables && |assignment[v]| <= v.length
      ensures IsGrid(letters, crossword.height, crossword.width)
      ensures forall r, c | 0 <= r < crossword.height && 0 <= c < crossword.width ::
                letters[r][c].Some? <==> Covered(assignment, assignment.Keys, r, c)
      ensures forall r, c | 0 <= r < crossword.height && 0 <= c < crossword.width && letters[r][c].Some? ::
                Shows(assignment, assignment.Keys, r, c, letters[r][c].value)
      ensures SharedCellsOverlap(crossword) && OverlapsAgree(crossword, assignment) ==>
                forall v, k | v in assignment && 0 <= k < |assignment[v]| ::
                  letters[Row(v, k)][Col(v, k)] == Some(assignment[v][k])
    {
      var height, width := crossword.height, crossword.width;
      ghost var agreeing := SharedCellsOverlap(crossword) && OverlapsAgree(crossword, assignment);
      letters := seq(height, _ => seq(width, _ => None));
      var todo := assignment.Keys;
      while todo != {}
        invariant todo <= assignment.Keys
        invariant IsGrid(letters, height, width) && OnlyShows(letters, assignment)
        invariant forall u | u in assignment && u !in todo :: Written(letters, assignment, u, |assignment[u]|)
        invariant agreeing ==>
                    forall u | u in assignment && u !in todo :: WrittenAs(letters, assignment, u, |assignment[u]|)
        decreases todo
      {
        var variable :| variable in todo;
        var word := assignment[variable];
        var direction := variable.direction;
        ghost var done := assignment.Keys - todo;
        for k := 0 to |word|
          invariant IsGrid(letters, height, width) && OnlyShows(letters, assignment)
          invariant forall u | u in done :: Written(letters, assignment, u, |assignment[u]|)
          invariant Written(letters, assignment, variable, k)
          invariant agreeing ==> forall u | u in done :: WrittenAs(letters, assignment, u, |assignment[u]|)
          invariant agreeing ==> WrittenAs(letters, assignment, variable, k)
        {
          var i := variable.i + (if direction == Down then k else 0);
          var j := variable.j + (if direction == Across then k else 0);
          assert i == Row(variable, k) && j == Col(variable, k);
          WriteKeepsFilled(letters, assignment, variable, k, done);
          if agreeing {
            WriteKeepsWords(crossword, letters, assignment, variable, k, done);
          }
          letters := Write(letters, i, j, word[k]);
        }
        todo := todo - {variable};
      }
      FilledExactlyCovered(letters, assignment, height, width);
      if agreeing {
        forall v, k | v in assignment && 0 <= k < |assignment[v]|
          ensures letters[Row(v, k)][Col(v, k)] == Some(assignment[v][k])
        {
          assert WrittenAs(letters, assignment, v, |assignment[v]|);
        }
      }
    }
  }
}
