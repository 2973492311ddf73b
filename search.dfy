/** The search heuristics, stated on values: the least-constraining-value
    score, the minimum-remaining-values order and the stable sort by key. */
module Search {
  import opened Puzzle
  import opened Sums
  import opened Constraints

  /** A neighbour word is ruled out by `word` when it is the same word or
      disagrees with it at the overlap. */
  predicate RulesOut(word: string, w: string, ov: Offsets)
  {
    word == w || !Agree(word, w, ov)
  }

  /** How many words of `ws` choosing `word` rules out. */
  function RemovedIn(ws: seq<string>, word: string, ov: Offsets): nat
  {
    if ws == [] then 0
    else RemovedIn(ws[..|ws| - 1], word, ov) + (if RulesOut(word, ws[|ws| - 1], ov) then 1 else 0)
  }

  /** The count is at most the domain's size, and zero exactly when choosing
      `word` leaves every word of the domain possible. */
  lemma {:induction false} RemovedInBounds(ws: seq<string>, word: string, ov: Offsets)
    ensures RemovedIn(ws, word, ov) <= |ws|
    ensures RemovedIn(ws, word, ov) == 0 <==> forall w | w in ws :: !RulesOut(word, w, ov)
  {
    if ws != [] {
      var init := ws[..|ws| - 1];
      RemovedInBounds(init, word, ov);
      assert ws == init + [ws[|ws| - 1]];
    }
  }

  /** The words of neighbour `n`'s domain that `word` for slot `v` rules out. */
  function NeighborRemoved(cw: Crossword, d: Domains, v: Variable, word: string, n: Variable): nat
  {
    if n in d && (v, n) in cw.overlaps then RemovedIn(d[n], word, cw.overlaps[(v, n)]) else 0
  }

  /** The least-constraining-value score of `word` for slot `v`: the words it
      rules out over all the neighbours in `nbrs`. */
  ghost function RemovedCount(cw: Crossword, d: Domains, v: Variable, word: string, nbrs: set<Variable>): nat
  {
    SetSum(nbrs, n => NeighborRemoved(cw, d, v, word, n))
  }

  lemma RemovedCountAdd(cw: Crossword, d: Domains, v: Variable, word: string, nbrs: set<Variable>, n: Variable)
    requires n !in nbrs
    ensures RemovedCount(cw, d, v, word, nbrs + {n})
         == RemovedCount(cw, d, v, word, nbrs) + NeighborRemoved(cw, d, v, word, n)
  {
    SetSumAdd(nbrs, n => NeighborRemoved(cw, d, v, word, n), n);
  }

  /** A word scores zero exactly when it rules out no word of any neighbour's
      domain. */
  lemma RemovedCountZero(cw: Crossword, d: Domains, v: Variable, word: string, nbrs: set<Variable>)
    requires forall n | n in nbrs :: n in d && (v, n) in cw.overlaps
    ensures RemovedCount(cw, d, v, word, nbrs) == 0 <==>
            forall n, w | n in nbrs && w in d[n] :: !RulesOut(word, w, cw.overlaps[(v, n)])
  {
    var f := n => NeighborRemoved(cw, d, v, word, n);
    SetSumZero(nbrs, f);
    forall n | n in nbrs
      ensures f(n) == 0 <==> forall w | w in d[n] :: !RulesOut(word, w, cw.overlaps[(v, n)])
    {
      RemovedInBounds(d[n], word, cw.overlaps[(v, n)]);
    }
  }

  /** `v` comes no later than `u` in the variable order: a smaller domain
      first, and on equal domains the larger degree first. */
  predicate MrvFirst(cw: Crossword, d: Domains, v: Variable, u: Variable)
  {
    v in d && u in d &&
    (|d[v]| < |d[u]| || (|d[v]| == |d[u]| && Degree(cw, v) >= Degree(cw, u)))
  }

  /** The sort key of the variable order, scaled by 1000 so that it is an
      integer: domain size first, degree as a thousandth-weight tie-break. */
  function MrvKey(cw: Crossword, d: Domains, v: Variable): int
    requires v in d
  {
    |d[v]| * 1000 - Degree(cw, v)
  }

  /** While degrees stay below 1000, a smaller key is exactly an earlier place
      in the variable order. */
  lemma MrvKeyOrder(cw: Crossword, d: Domains, v: Variable, u: Variable)
    requires v in d && u in d && Degree(cw, v) < 1000 && Degree(cw, u) < 1000
    ensures MrvFirst(cw, d, v, u) <==> MrvKey(cw, d, v) <= MrvKey(cw, d, u)
  {
    if |d[v]| < |d[u]| {
      assert |d[v]| * 1000 + 1000 <= |d[u]| * 1000;
    } else if |d[v]| > |d[u]| {
      assert |d[u]| * 1000 + 1000 <= |d[v]| * 1000;
    }
  }

  /** `v` comes first in the variable order among the slots of `d` that `a`
      leaves unassigned. */
  predicate FirstUnassigned(cw: Crossword, d: Domains, a: Assignment, v: Variable)
  {
    forall u | u in d && u !in a :: MrvFirst(cw, d, v, u)
  }

  /** Every non-empty set of slots has a first slot in the variable order. */
  lemma {:induction false} MrvMinimumExists(cw: Crossword, d: Domains, s: set<Variable>)
    requires s != {} && s <= d.Keys
    ensures exists v | v in s :: forall u | u in s :: MrvFirst(cw, d, v, u)
    decreases |s|
  {
    var x :| x in s;
    if s == {x} {
      assert forall u | u in s :: MrvFirst(cw, d, x, u);
    } else {
      var rest := s - {x};
      MrvMinimumExists(cw, d, rest);
      var m :| m in rest && forall u | u in rest :: MrvFirst(cw, d, m, u);
      if MrvFirst(cw, d, m, x) {
        assert forall u | u in s :: MrvFirst(cw, d, m, u);
      } else {
        forall u | u in s ensures MrvFirst(cw, d, x, u) {
          if u != x {
            assert MrvFirst(cw, d, m, u);
          }
        }
      }
    }
  }

  /** `values` is in non-decreasing order of least-constraining-value score
      against the neighbours `nbrs`. */
  ghost predicate LeastConstrainingFirst(cw: Crossword, d: Domains, v: Variable, nbrs: set<Variable>, values: seq<string>)
  {
    forall i, j | 0 <= i < j < |values| ::
      RemovedCount(cw, d, v, values[i], nbrs) <= RemovedCount(cw, d, v, values[j], nbrs)
  }

  /** Every word of `ws` has a key in `key`. */
  predicate Keyed(ws: seq<string>, key: map<string, nat>)
  {
    forall w | w in ws :: w in key
  }

  /** The words of `ws` are in non-decreasing order of key. */
  predicate SortedBy(ws: seq<string>, key: map<string, nat>)
  {
    Keyed(ws, key) && forall i, j | 0 <= i < j < |ws| :: key[ws[i]] <= key[ws[j]]
  }

  /** Places `w` before the first word of `s` whose key is not smaller. */
  function Insert(w: string, s: seq<string>, key: map<string, nat>): (r: seq<string>)
    requires w in key && Keyed(s, key)
    ensures multiset(r) == multiset(s) + multiset{w}
  {
    if s == [] then [w]
    else if key[w] <= key[s[0]] then [w] + s
    else
      assert s == [s[0]] + s[1..];
      [s[0]] + Insert(w, s[1..], key)
  }

  /** A stable sort of `ws` by key (insertion sort); it permutes its input. */
  function SortByKey(ws: seq<string>, key: map<string, nat>): (r: seq<string>)
    requires Keyed(ws, key)
    ensures multiset(r) == multiset(ws)
  {
    if ws == [] then []
    else
      assert ws == [ws[0]] + ws[1..];
      var tail := SortByKey(ws[1..], key);
      assert Keyed(tail, key) by {
        forall x | x in tail ensures x in key {
          assert x in multiset(tail);
        }
      }
      Insert(ws[0], tail, key)
  }

  /** Every word of `s` has a key of at least `k`. */
  predicate KeysAtLeast(k: nat, s: seq<string>, key: map<string, nat>)
  {
    Keyed(s, key) && forall x | x in s :: k <= key[x]
  }

  lemma SortedHeadLeast(s: seq<string>, key: map<string, nat>)
    requires s != [] && SortedBy(s, key)
    ensures KeysAtLeast(key[s[0]], s, key)
  {
    forall x | x in s ensures key[s[0]] <= key[x] {
      var t :| 0 <= t < |s| && s[t] == x;
      if t > 0 {
        assert key[s[0]] <= key[s[t]];
      }
    }
  }

  lemma PrependSorted(x: string, s: seq<string>, key: map<string, nat>)
    requires x in key && SortedBy(s, key) && KeysAtLeast(key[x], s, key)
    ensures SortedBy([x] + s, key)
  {
    var r := [x] + s;
    forall i, j | 0 <= i < j < |r| ensures key[r[i]] <= key[r[j]] {
      assert r[j] == s[j - 1];
      if i == 0 {
        assert r[j] in s;
      } else {
        assert r[i] == s[i - 1];
      }
    }
  }

  lemma InsertKeysAtLeast(k: nat, w: string, s: seq<string>, key: map<string, nat>)
    requires w in key && k <= key[w] && KeysAtLeast(k, s, key)
    ensures KeysAtLeast(k, Insert(w, s, key), key)
  {
    var ins := Insert(w, s, key);
    forall x | x in ins ensures x in key && k <= key[x] {
      assert x in multiset(ins);
      if x != w {
        assert x in multiset(s);
      }
    }
  }

  lemma {:induction false} InsertSorted(w: string, s: seq<string>, key: map<string, nat>)
    requires w in key && SortedBy(s, key)
    ensures SortedBy(Insert(w, s, key), key)
  {
    if s == [] {
    } else if key[w] <= key[s[0]] {
      SortedHeadLeast(s, key);
      PrependSorted(w, s, key);
    } else {
      var tail := s[1..];
      assert SortedBy(tail, key);
      InsertSorted(w, tail, key);
      SortedHeadLeast(s, key);
      assert KeysAtLeast(key[s[0]], tail, key);
      InsertKeysAtLeast(key[s[0]], w, tail, key);
      PrependSorted(s[0], Insert(w, tail, key), key);
    }
  }

  /** The sort returns its input in non-decreasing key order. */
  lemma {:induction false} SortByKeySorted(ws: seq<string>, key: map<string, nat>)
    requires Keyed(ws, key)
    ensures SortedBy(SortByKey(ws, key), key)
  {
    if ws != [] {
      SortByKeySorted(ws[1..], key);
      InsertSorted(ws[0], SortByKey(ws[1..], key), key);
    }
  }
}
