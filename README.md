# Crossword generator: a verified model of the CSP solver

The crossword generator fills a grid with words from a vocabulary by treating
the problem as a constraint satisfaction problem. Each slot (a *variable*: the
row and column of its first cell, a direction and a length) needs one word.
The word must have the slot's length, no word may be used twice, and two slots
that share a cell must put the same letter there. `CrosswordCreator` keeps one
*domain* of candidate words per slot and solves in three stages:

1. a length filter (node consistency);
2. AC-3 over the arcs between overlapping slots;
3. backtracking search. The search takes the unassigned slot with the fewest
   remaining words first, breaking ties by the most neighbours. It tries that
   slot's words in least-constraining-value order.

The model is in Dafny:

- `puzzle.dfy`: the crossword structure as given values.
- `sums.dfy`: sums over finite sets.
- `constraints.dfy`: what an assignment must satisfy, and what "solution",
  "extends" and "dead end" mean.
- `propagation.dfy`: the node- and arc-consistency operations, stated on
  domain values.
- `search.dfy`: the least-constraining-value score, the variable order and a
  stable sort by key.
- `grid.dfy`: where an assignment's letters land.
- `generate.dfy`: the classes. `CrosswordCreator` keeps the immutable
  crossword and a `domains` map that its methods update in place.
  `PartialAssignment` is the dictionary that backtracking extends and rolls
  back in place.

Every method is proved against the value-level definitions. The properties of
those definitions are proved as lemmas. The main results:

- the length filter and AC-3 only remove words, and never remove a word of any
  solution;
- when AC-3 succeeds, every arc is consistent;
- `Backtrack` is sound: what it returns binds every slot, keeps every entry
  binding and draws every new word from its domain; it is consistent whenever
  the entry assignment was;
- `Backtrack` is complete: it returns null only when no solution extends the
  assignment it was given;
- `Solve` returns a solution of the original domains whenever one exists.

## Model

| member | source | states |
|---|---|---|
| Generate.CrosswordCreator.constructor | generate.py:8-16 | Every slot of the crossword gets the whole vocabulary as its domain, and no other slot gets a domain. |
| Generate.CrosswordCreator.EnforceNodeConsistency | generate.py:96-105 | Each domain is replaced by the words of that slot's length, in their original order. The slots stay the same. |
| Propagation.FitLengthMembers | generate.py:104-105 | A word survives the length filter exactly when it was in the domain and has the slot's length. |
| Propagation.FitLengthIdempotent | generate.py:104-105 | Filtering an already filtered domain again changes nothing. |
| Propagation.NodeConsistencyFilters | generate.py:96-105 | After the filter every word has its slot's length and each domain only lost words. Every word of the right length is kept. |
| Propagation.NodeConsistencyIdempotent | generate.py:96-105 | Running node consistency a second time leaves all domains unchanged. |
| Propagation.NodeConsistencyKeepsSolutions | generate.py:96-105 | Every solution drawn from the old domains is still a solution drawn from the filtered domains. |
| Generate.CrosswordCreator.Revise | generate.py:107-139 | The new domains are those of the revise specification. The result is true exactly when the domains changed, and exactly when x's domain became smaller. Slots without an overlap are left unchanged. |
| Propagation.RevisedMembers | generate.py:124-134 | A word of x stays exactly when some word of y's domain has the same letter at the overlap. |
| Propagation.RevisedSize | generate.py:135-137 | Revision never grows x's domain. The size stays the same exactly when every word has a partner, and then the domain is unchanged. So comparing lengths detects every change. |
| Propagation.ReviseNarrows | generate.py:107-139 | Revision only removes words, only from x, and keeps node consistency. |
| Propagation.ReviseMakesArcConsistent | generate.py:107-139 | After revising x against y, every word of x has a partner in y's domain. |
| Propagation.RevisePreservesSolutions | generate.py:107-139 | Revision never removes a word that some solution uses. |
| Propagation.RevisePreservesArc | generate.py:167-170 | A consistent arc stays consistent after revising x against y, unless it points into x from a slot other than y. |
| Propagation.ArcSurvivesRevise | generate.py:167-170 | The only consistent arcs a revision can break are the arcs (z, x) from neighbours z of x other than y. |
| Propagation.WorklistStep | generate.py:160-170 | One pop-revise-requeue step keeps AC-3's invariant: every tracked arc is pending or consistent. |
| Propagation.EmptyDomainNoSolution | generate.py:164-166 | A slot with an empty domain admits no solution, so returning false is justified. |
| Propagation.ShrinkDecreasesTotal | generate.py:160-170 | Shrinking one domain lowers the total number of words. This is AC-3's termination measure. |
| Generate.CrosswordCreator.NeighborArcs | generate.py:151-158 | The default worklist holds exactly the arcs (v1, v2) with v2 a neighbour of v1: every such arc is in it, and every arc in it is one. |
| Generate.CrosswordCreator.AC3 | generate.py:141-171 | Domains only shrink and keep node consistency, and every solution survives. False means some domain is empty and the original domains had no solution. True means every arc (or every given arc) is consistent. An empty list of given arcs returns true and leaves the domains as they were. |
| Generate.CrosswordCreator.AssignmentComplete | generate.py:173-184 | True exactly when every slot has a word. |
| Generate.CrosswordCreator.Consistent | generate.py:186-209 | True exactly when every word has its slot's length, the words are pairwise distinct and every two overlapping slots agree on the shared letter. |
| Constraints.ConsistentRestrict | generate.py:186-209 | Dropping bindings from a consistent assignment keeps it consistent. |
| Generate.CrosswordCreator.CountRemovedInNeighbors | generate.py:221-231 | The count is the sum, over the given neighbours, of the neighbour words that the chosen word rules out. A word is ruled out when it is the same word or has a different letter at the overlap. |
| Search.RemovedInBounds | generate.py:226-230 | One neighbour contributes at most its domain size. It contributes zero exactly when none of its words is ruled out. |
| Search.RemovedCountAdd | generate.py:224-230 | Adding a neighbour adds exactly that neighbour's count. |
| Search.RemovedCountZero | generate.py:221-231 | A word scores zero exactly when it rules out no word of any neighbour. |
| Generate.CrosswordCreator.OrderDomainValues | generate.py:211-219 | The result is a permutation of the slot's domain. It is in non-decreasing order of the score against the unassigned neighbours. |
| Search.Insert | generate.py:219 | Insertion adds exactly the one word to the multiset of words. |
| Search.SortByKey | generate.py:219 | The sort returns a permutation of its input. |
| Search.SortByKeySorted | generate.py:219 | The sort's output is in non-decreasing key order. |
| Generate.CrosswordCreator.SelectUnassignedVariable | generate.py:233-245 | The chosen slot is unassigned. No unassigned slot has a smaller domain, or an equal domain and more neighbours. |
| Search.MrvMinimumExists | generate.py:242-245 | Every non-empty set of slots has a first slot in that order, so a choice always exists. |
| Search.MrvKeyOrder | generate.py:244 | With degrees below 1000, the order matches the source's key, domain size minus a thousandth per neighbour (scaled by 1000). |
| Generate.CrosswordCreator.Backtrack | generate.py:247-278 | On success the same object comes back. It then binds every slot, keeps every entry binding, draws every new word from its domain, and is consistent if the entry assignment was. On failure the bindings are as on entry, and no solution of the domains extends the entry assignment. |
| Constraints.InconsistentDeadEnd | generate.py:265-276 | An inconsistent partial assignment is extended by no solution, so skipping it loses nothing. |
| Constraints.ExcludedStep | generate.py:261-276 | A value that leads to a dead end joins the values that no solution through the entry assignment can use. |
| Constraints.ExcludedAll | generate.py:261-278 | Once every word of the slot's domain is excluded, the entry assignment itself is a dead end. |
| Constraints.CompletesStep | generate.py:265-274 | Completing a consistent one-slot extension completes the original assignment. |
| Constraints.UnbindRestores | generate.py:268-276 | Deleting the slot just bound restores the entry assignment. |
| Constraints.BindShrinks | generate.py:262-268 | Binding an unassigned slot leaves one slot fewer unbound, so the recursion terminates. |
| Constraints.CompletesEmpty | generate.py:94 | Completing the empty assignment yields a solution. |
| Generate.CrosswordCreator.Solve | generate.py:88-94 | Afterwards the domains are node consistent and narrower, with every solution kept. A returned assignment is a fresh solution. Null means the original domains admit no solution. |
| Generate.CrosswordCreator.LetterGrid | generate.py:18-32 | The grid is height × width. A cell is filled exactly when an assigned slot covers it, and shows a letter that slot writes there. In a consistent fill, every assigned letter appears in its cell. |
| Grid.SameCellSameLetter | generate.py:25-31 | In a consistent fill, two letters written to the same cell are equal, so the write order does not matter. |
| Grid.WriteKeepsFilled | generate.py:28-31 | Writing one letter keeps the filled cells filled and every filled cell showing an assigned letter. |
| Grid.WriteKeepsWords | generate.py:28-31 | In a consistent fill, writing one letter overwrites no other slot's letter with a different one. |
| Grid.FilledExactlyCovered | generate.py:18-32 | When all slots are written, the filled cells are exactly the covered cells. |

## Left out

- `print`, `save` and `main` (generate.py:34-86, 281-308) are terminal output, image drawing and command-line handling.
- crossword.py is not part of this model. The `Crossword` it builds is taken as a given value. `WellFormed`, `InGrid` and `SharedCellsOverlap` state what its overlap computation is assumed to guarantee: overlaps only between distinct slots, offsets inside both slots, a symmetric map, every slot inside the grid, and every shared cell recorded.
- An overlap whose lookup yields `None` is an arc missing from the `overlaps` map. A lookup on slots outside the crossword raises `KeyError` in the source. The model treats it as "no overlap".
- The vocabulary is a Python set, and the constructor gives each slot its own copy of that set (generate.py:14). Lists appear only when the length filter (generate.py:105) and `revise` (generate.py:123) rebuild a domain. The model takes every domain as a sequence, in the set's iteration order.
- Letter comparisons go through `Agree`, which treats an offset past the end of a word as a mismatch. The source would raise `IndexError` there, in `revise`, `consistent` and `count_removed_in_neighbors`. This cannot happen after the length filter, because offsets lie inside both slots and every domain word has its slot's length.
- Dictionary and set iteration order is not modelled. Every loop over keys takes an arbitrary next element, and the contracts hold for every such order. The order does decide which solution `backtrack` returns, which of several tied slots is selected, the order in which AC-3 processes its worklist, and the domains at the moment AC-3 returns false.
- Generate.CrosswordCreator.SelectUnassignedVariable: the source sorts by a floating-point key and takes the first element. The model picks any slot that comes first in the integer order. It does not model float rounding or which of several tied slots the stable sort would return.
- Generate.CrosswordCreator.OrderDomainValues: the sort is stable, but stability is not stated. Only the permutation and the order by score are proved.
- Generate.CrosswordCreator.AC3: the source's documentation promises false whenever a domain ends up empty, but the code checks only the domain it has just revised (generate.py:163-166). A slot with no neighbour and no word of its length is emptied by the length filter, never revised, and AC-3 still returns true. So true does not imply that every domain is non-empty, and the model does not claim it.
- Generate.CrosswordCreator.AC3: when a list of arcs is given, the source pops from the caller's own list and empties it. The model works on a copy, so this aliasing is not modelled.
- Generate.CrosswordCreator.LetterGrid: the nested lists are modelled as a sequence of rows, a value built by successive cell updates. Empty cells are `None`.
- `solve` ignores the result of `ac3`, and so does the model. An emptied domain makes the search fail on its own.
