/** Extended integers (the `float('-inf')` / `float('inf')` sentinels of the
    search code) and the facts that every alpha-beta loop of the agents rests
    on.  A call `ab(node, alpha, beta)` of a fail-soft alpha-beta search returns
    a value r that is related to the node's plain minimax value v by
    `FailSoft(r, v, alpha, beta)`; the loop lemmas below show that one
    maximising or minimising loop of the source (update the best value with a
    strict comparison, raise alpha / lower beta, break when beta <= alpha)
    preserves that relation. */
module AlphaBeta {

  datatype ExtInt = NegInf | Fin(n: int) | PosInf

  /** a <= b on the extended integers. */
  predicate Le(a: ExtInt, b: ExtInt) {
    a.NegInf? || b.PosInf? || (a.Fin? && b.Fin? && a.n <= b.n)
  }

  /** a < b on the extended integers. */
  predicate Lt(a: ExtInt, b: ExtInt) {
    !Le(b, a)
  }

  /** Python's max(a, b). */
  function Max(a: ExtInt, b: ExtInt): (m: ExtInt)
    ensures Le(a, m) && Le(b, m)
    ensures m == a || m == b
  {
    if Le(a, b) then b else a
  }

  /** Python's min(a, b). */
  function Min(a: ExtInt, b: ExtInt): (m: ExtInt)
    ensures Le(m, a) && Le(m, b)
    ensures m == a || m == b
  {
    if Le(a, b) then a else b
  }

  /** The largest element, -inf for the empty sequence. */
  function MaxSeq(s: seq<ExtInt>): (m: ExtInt)
    ensures forall i :: 0 <= i < |s| ==> Le(s[i], m)
    ensures m == NegInf || m in s
  {
    if s == [] then NegInf else Max(MaxSeq(s[..|s| - 1]), s[|s| - 1])
  }

  /** The smallest element, +inf for the empty sequence. */
  function MinSeq(s: seq<ExtInt>): (m: ExtInt)
    ensures forall i :: 0 <= i < |s| ==> Le(m, s[i])
    ensures m == PosInf || m in s
  {
    if s == [] then PosInf else Min(MinSeq(s[..|s| - 1]), s[|s| - 1])
  }

  /** The maximum depends only on which values occur, not on their order. */
  lemma MaxSeqSameElements(a: seq<ExtInt>, b: seq<ExtInt>)
    requires forall x :: x in a <==> x in b
    ensures MaxSeq(a) == MaxSeq(b)
  {
    var ma, mb := MaxSeq(a), MaxSeq(b);
    if ma in a {
      var i :| 0 <= i < |a| && a[i] == ma;
      var j :| 0 <= j < |b| && b[j] == ma;
      assert Le(ma, mb);
    }
    if mb in b {
      var j :| 0 <= j < |b| && b[j] == mb;
      var i :| 0 <= i < |a| && a[i] == mb;
      assert Le(mb, ma);
    }
  }

  /** The minimum depends only on which values occur, not on their order. */
  lemma MinSeqSameElements(a: seq<ExtInt>, b: seq<ExtInt>)
    requires forall x :: x in a <==> x in b
    ensures MinSeq(a) == MinSeq(b)
  {
    var ma, mb := MinSeq(a), MinSeq(b);
    if ma in a {
      var i :| 0 <= i < |a| && a[i] == ma;
      var j :| 0 <= j < |b| && b[j] == ma;
      assert Le(mb, ma);
    }
    if mb in b {
      var j :| 0 <= j < |b| && b[j] == mb;
      var i :| 0 <= i < |a| && a[i] == mb;
      assert Le(ma, mb);
    }
  }

  /** r is what a fail-soft alpha-beta search with window (alpha, beta) may
      return for a node whose minimax value is v: an upper bound of v when it
      fails low, a lower bound when it fails high, v itself inside the window. */
  predicate FailSoft(r: ExtInt, v: ExtInt, alpha: ExtInt, beta: ExtInt) {
    && (Le(r, alpha) ==> Le(v, r))
    && (Le(beta, r) ==> Le(r, v))
    && (Lt(alpha, r) && Lt(r, beta) ==> r == v)
  }

  /** With the full window (-inf, +inf) the search value is the minimax value. */
  lemma FullWindowExact(r: ExtInt, v: ExtInt)
    requires FailSoft(r, v, NegInf, PosInf)
    ensures r == v
  {
  }

  // ---------------------------------------------------------------------
  // The maximising loop:
  //   max_value := -inf
  //   for each child: value := ab(child, alpha, beta)
  //                   if value > max_value: max_value := value
  //                   alpha := max(alpha, max_value)
  //                   if beta <= alpha: break
  // `vs` are the minimax values of the children visited so far, `a0` the
  // alpha the node was called with.
  // ---------------------------------------------------------------------

  predicate MaxInv(a0: ExtInt, beta: ExtInt, vs: seq<ExtInt>, mv: ExtInt, alpha: ExtInt) {
    && alpha == Max(a0, mv)
    && (Le(mv, a0) ==> Le(MaxSeq(vs), mv))
    && (Lt(a0, mv) && Lt(mv, beta) ==> MaxSeq(vs) == mv)
    && (Le(beta, mv) ==> Le(mv, MaxSeq(vs)))
  }

  lemma MaxInit(a0: ExtInt, beta: ExtInt)
    ensures MaxInv(a0, beta, [], NegInf, a0)
  {
  }

  /** One iteration of the maximising loop keeps MaxInv: `all` are the
      values of every child, the first i of them already visited, and r is
      the search's answer for child i. */
  lemma MaxStep(a0: ExtInt, beta: ExtInt, all: seq<ExtInt>, i: int, mv: ExtInt, alpha: ExtInt, r: ExtInt)
    requires 0 <= i < |all|
    requires MaxInv(a0, beta, all[..i], mv, alpha)
    requires Lt(alpha, beta)
    requires FailSoft(r, all[i], alpha, beta)
    ensures var mv' := if Lt(mv, r) then r else mv;
            MaxInv(a0, beta, all[..i + 1], mv', Max(alpha, mv'))
  {
    var vs' := all[..i + 1];
    assert vs'[..i] == all[..i];
    assert MaxSeq(vs') == Max(MaxSeq(all[..i]), all[i]);
  }

  /** Leaving the maximising loop (all children seen, or cut off) the best
      value is a fail-soft answer for the node. */
  lemma MaxExit(a0: ExtInt, beta: ExtInt, all: seq<ExtInt>, i: int, mv: ExtInt, alpha: ExtInt)
    requires Lt(a0, beta)
    requires 0 <= i <= |all|
    requires MaxInv(a0, beta, all[..i], mv, alpha)
    requires i == |all| || Le(beta, alpha)
    ensures FailSoft(mv, MaxSeq(all), a0, beta)
  {
    var vs := all[..i];
    assert i == |all| ==> vs == all;
    var m := MaxSeq(vs);
    if m != NegInf {
      var i :| 0 <= i < |vs| && vs[i] == m;
      assert all[i] == m;
    }
    assert Le(m, MaxSeq(all));
  }

  // ---------------------------------------------------------------------
  // The minimising loop, symmetric: min_value from +inf, beta := min(beta,
  // min_value), break when beta <= alpha.  `b0` is the beta of the call.
  // ---------------------------------------------------------------------

  predicate MinInv(a: ExtInt, b0: ExtInt, vs: seq<ExtInt>, mv: ExtInt, beta: ExtInt) {
    && beta == Min(b0, mv)
    && (Le(b0, mv) ==> Le(mv, MinSeq(vs)))
    && (Lt(a, mv) && Lt(mv, b0) ==> MinSeq(vs) == mv)
    && (Le(mv, a) ==> Le(MinSeq(vs), mv))
  }

  lemma MinInit(a: ExtInt, b0: ExtInt)
    ensures MinInv(a, b0, [], PosInf, b0)
  {
  }

  /** One iteration of the minimising loop keeps MinInv. */
  lemma MinStep(a: ExtInt, b0: ExtInt, all: seq<ExtInt>, i: int, mv: ExtInt, beta: ExtInt, r: ExtInt)
    requires 0 <= i < |all|
    requires MinInv(a, b0, all[..i], mv, beta)
    requires Lt(a, beta)
    requires FailSoft(r, all[i], a, beta)
    ensures var mv' := if Lt(r, mv) then r else mv;
            MinInv(a, b0, all[..i + 1], mv', Min(beta, mv'))
  {
    var vs' := all[..i + 1];
    assert vs'[..i] == all[..i];
    assert MinSeq(vs') == Min(MinSeq(all[..i]), all[i]);
  }

  /** Leaving the minimising loop the best value is a fail-soft answer. */
  lemma MinExit(a: ExtInt, b0: ExtInt, all: seq<ExtInt>, i: int, mv: ExtInt, beta: ExtInt)
    requires Lt(a, b0)
    requires 0 <= i <= |all|
    requires MinInv(a, b0, all[..i], mv, beta)
    requires i == |all| || Le(beta, a)
    ensures FailSoft(mv, MinSeq(all), a, b0)
  {
    var vs := all[..i];
    assert i == |all| ==> vs == all;
    var m := MinSeq(vs);
    if m != PosInf {
      var i :| 0 <= i < |vs| && vs[i] == m;
      assert all[i] == m;
    }
    assert Le(MinSeq(all), m);
  }

  // ---------------------------------------------------------------------
  // Which child wins.  With the full window the loops above return the
  // first child whose minimax value is the best one.
  // ---------------------------------------------------------------------

  /** k is the first index holding the maximum of vs, or -1 when every value
      is -inf (no child ever beats the initial -inf). */
  predicate IsFirstMax(vs: seq<ExtInt>, k: int) {
    if k == -1 then forall j :: 0 <= j < |vs| ==> vs[j] == NegInf
    else
      && 0 <= k < |vs| && vs[k] != NegInf
      && (forall j :: 0 <= j < k ==> Lt(vs[j], vs[k]))
      && (forall j :: k <= j < |vs| ==> Le(vs[j], vs[k]))
  }

  /** The first-maximum index is unique and names the maximum. */
  lemma FirstMaxUnique(vs: seq<ExtInt>, k1: int, k2: int)
    requires IsFirstMax(vs, k1) && IsFirstMax(vs, k2)
    ensures k1 == k2
    ensures k1 == -1 <==> MaxSeq(vs) == NegInf
    ensures k1 != -1 ==> vs[k1] == MaxSeq(vs)
  {
    if k1 != -1 {
      assert Le(vs[k1], MaxSeq(vs));
      if MaxSeq(vs) != NegInf {
        var i :| 0 <= i < |vs| && vs[i] == MaxSeq(vs);
        assert Le(vs[i], vs[k1]);
      }
    }
  }

  /** The k of IsFirstMax is the index the strict `>` update settles on. */
  predicate MaxFirstInv(vs: seq<ExtInt>, mv: ExtInt, k: int) {
    IsFirstMax(vs, k) && mv == (if k == -1 then NegInf else vs[k])
  }

  /** One iteration of the maximising loop under the full window: alpha is
      the best value so far, beta is +inf. */
  lemma MaxFirstStep(all: seq<ExtInt>, i: int, mv: ExtInt, k: int, r: ExtInt)
    requires 0 <= i < |all|
    requires MaxFirstInv(all[..i], mv, k)
    requires FailSoft(r, all[i], mv, PosInf)
    ensures Lt(mv, r) ==> MaxFirstInv(all[..i + 1], r, i)
    ensures !Lt(mv, r) ==> MaxFirstInv(all[..i + 1], mv, k)
  {
    assert all[..i + 1] == all[..i] + [all[i]];
  }

  lemma MaxFirstExit(all: seq<ExtInt>, i: int, mv: ExtInt, k: int)
    requires 0 <= i <= |all|
    requires MaxFirstInv(all[..i], mv, k)
    requires i == |all| || mv == PosInf
    ensures IsFirstMax(all, k)
  {
    var vs := all[..i];
    assert i == |all| ==> vs == all;
    if vs != all {
      assert k != -1;
      forall j | k <= j < |all| ensures Le(all[j], all[k]) {
        assert all[k] == vs[k];
      }
      forall j | 0 <= j < k ensures Lt(all[j], all[k]) {
        assert all[j] == vs[j] && all[k] == vs[k];
      }
    }
  }

  /** k is the first index holding the minimum of vs, or -1 when every value
      is +inf. */
  predicate IsFirstMin(vs: seq<ExtInt>, k: int) {
    if k == -1 then forall j :: 0 <= j < |vs| ==> vs[j] == PosInf
    else
      && 0 <= k < |vs| && vs[k] != PosInf
      && (forall j :: 0 <= j < k ==> Lt(vs[k], vs[j]))
      && (forall j :: k <= j < |vs| ==> Le(vs[k], vs[j]))
  }

  lemma FirstMinUnique(vs: seq<ExtInt>, k1: int, k2: int)
    requires IsFirstMin(vs, k1) && IsFirstMin(vs, k2)
    ensures k1 == k2
    ensures k1 == -1 <==> MinSeq(vs) == PosInf
    ensures k1 != -1 ==> vs[k1] == MinSeq(vs)
  {
    if k1 != -1 {
      assert Le(MinSeq(vs), vs[k1]);
      if MinSeq(vs) != PosInf {
        var i :| 0 <= i < |vs| && vs[i] == MinSeq(vs);
        assert Le(vs[k1], vs[i]);
      }
    }
  }

  predicate MinFirstInv(vs: seq<ExtInt>, mv: ExtInt, k: int) {
    IsFirstMin(vs, k) && mv == (if k == -1 then PosInf else vs[k])
  }

  /** One iteration of the minimising loop under the full window: beta is
      the best value so far, alpha is -inf. */
  lemma MinFirstStep(all: seq<ExtInt>, i: int, mv: ExtInt, k: int, r: ExtInt)
    requires 0 <= i < |all|
    requires MinFirstInv(all[..i], mv, k)
    requires FailSoft(r, all[i], NegInf, mv)
    ensures Lt(r, mv) ==> MinFirstInv(all[..i + 1], r, i)
    ensures !Lt(r, mv) ==> MinFirstInv(all[..i + 1], mv, k)
  {
    assert all[..i + 1] == all[..i] + [all[i]];
  }

  lemma MinFirstExit(all: seq<ExtInt>, i: int, mv: ExtInt, k: int)
    requires 0 <= i <= |all|
    requires MinFirstInv(all[..i], mv, k)
    requires i == |all| || mv == NegInf
    ensures IsFirstMin(all, k)
  {
    var vs := all[..i];
    assert i == |all| ==> vs == all;
    if vs != all {
      assert k != -1;
      forall j | k <= j < |all| ensures Le(all[k], all[j]) {
        assert all[k] == vs[k];
      }
      forall j | 0 <= j < k ensures Lt(all[k], all[j]) {
        assert all[j] == vs[j] && all[k] == vs[k];
      }
    }
  }

  // ---------------------------------------------------------------------
  // The two loops as a whole.  MaxLoop is the state of the maximising loop
  // after i children (`a0` the alpha of the call, `k` the index of the
  // current best child), MinLoop that of the minimising loop; the step
  // lemmas take one child's answer r, the exit lemmas give the node's
  // answer when the loop ends or is cut off.
  // ---------------------------------------------------------------------

  predicate MaxLoop(a0: ExtInt, beta: ExtInt, all: seq<ExtInt>, i: int, mv: ExtInt, alpha: ExtInt, k: int) {
    && 0 <= i <= |all|
    && alpha == Max(a0, mv)
    && (Lt(a0, beta) ==> MaxInv(a0, beta, all[..i], mv, alpha))
    && (a0 == NegInf && beta == PosInf ==> MaxFirstInv(all[..i], mv, k))
  }

  lemma MaxLoopInit(a0: ExtInt, beta: ExtInt, all: seq<ExtInt>)
    ensures MaxLoop(a0, beta, all, 0, NegInf, a0, -1)
  {
    MaxInit(a0, beta);
  }

  lemma MaxLoopStep(a0: ExtInt, beta: ExtInt, all: seq<ExtInt>, i: int, mv: ExtInt, alpha: ExtInt, k: int, r: ExtInt)
    requires MaxLoop(a0, beta, all, i, mv, alpha, k) && i < |all|
    requires Lt(a0, beta) ==> Lt(alpha, beta) && FailSoft(r, all[i], alpha, beta)
    ensures var better := Lt(mv, r);
      var mv' := if better then r else mv;
      MaxLoop(a0, beta, all, i + 1, mv', Max(alpha, mv'), if better then i else k)
  {
    if Lt(a0, beta) {
      MaxStep(a0, beta, all, i, mv, alpha, r);
    }
    if a0 == NegInf && beta == PosInf {
      MaxFirstStep(all, i, mv, k, r);
    }
  }

  lemma MaxLoopExit(a0: ExtInt, beta: ExtInt, all: seq<ExtInt>, i: int, mv: ExtInt, alpha: ExtInt, k: int)
    requires MaxLoop(a0, beta, all, i, mv, alpha, k)
    requires i == |all| || Le(beta, alpha)
    ensures Lt(a0, beta) ==> FailSoft(mv, MaxSeq(all), a0, beta)
    ensures a0 == NegInf && beta == PosInf ==> IsFirstMax(all, k)
  {
    if Lt(a0, beta) {
      MaxExit(a0, beta, all, i, mv, alpha);
    }
    if a0 == NegInf && beta == PosInf {
      MaxFirstExit(all, i, mv, k);
    }
  }

  predicate MinLoop(a: ExtInt, b0: ExtInt, all: seq<ExtInt>, i: int, mv: ExtInt, beta: ExtInt, k: int) {
    && 0 <= i <= |all|
    && beta == Min(b0, mv)
    && (Lt(a, b0) ==> MinInv(a, b0, all[..i], mv, beta))
    && (a == NegInf && b0 == PosInf ==> MinFirstInv(all[..i], mv, k))
  }

  lemma MinLoopInit(a: ExtInt, b0: ExtInt, all: seq<ExtInt>)
    ensures MinLoop(a, b0, all, 0, PosInf, b0, -1)
  {
    MinInit(a, b0);
  }

  lemma MinLoopStep(a: ExtInt, b0: ExtInt, all: seq<ExtInt>, i: int, mv: ExtInt, beta: ExtInt, k: int, r: ExtInt)
    requires MinLoop(a, b0, all, i, mv, beta, k) && i < |all|
    requires Lt(a, b0) ==> Lt(a, beta) && FailSoft(r, all[i], a, beta)
    ensures var better := Lt(r, mv);
      var mv' := if better then r else mv;
      MinLoop(a, b0, all, i + 1, mv', Min(beta, mv'), if better then i else k)
  {
    if Lt(a, b0) {
      MinStep(a, b0, all, i, mv, beta, r);
    }
    if a == NegInf && b0 == PosInf {
      MinFirstStep(all, i, mv, k, r);
    }
  }

  lemma MinLoopExit(a: ExtInt, b0: ExtInt, all: seq<ExtInt>, i: int, mv: ExtInt, beta: ExtInt, k: int)
    requires MinLoop(a, b0, all, i, mv, beta, k)
    requires i == |all| || Le(beta, a)
    ensures Lt(a, b0) ==> FailSoft(mv, MinSeq(all), a, b0)
    ensures a == NegInf && b0 == PosInf ==> IsFirstMin(all, k)
  {
    if Lt(a, b0) {
      MinExit(a, b0, all, i, mv, beta);
    }
    if a == NegInf && b0 == PosInf {
      MinFirstExit(all, i, mv, k);
    }
  }

  // ---------------------------------------------------------------------
  // The plain minimax value of a game searched to a fixed depth.  The game
  // is given by its rules: which positions are terminal, the heuristic
  // score of a position, the moves from a position in the order the search
  // meets them, the position a move leads to, and a rank that every move
  // out of a non-terminal position lowers (so the game tree is finite).
  // ---------------------------------------------------------------------

  datatype Rules<!S, !A> = Rules(
    terminal: S -> bool,
    score: S -> int,
    moves: S -> seq<A>,
    next: (S, A) -> S,
    rank: S -> nat)

  /** Every move lowers the rank, or leads to a terminal position without
      raising it. */
  ghost predicate WellFounded<S(!new), A(!new)>(R: Rules<S, A>) {
    forall s, a :: a in R.moves(s) ==>
      R.rank(R.next(s, a)) < R.rank(s) || (R.terminal(R.next(s, a)) && R.rank(R.next(s, a)) <= R.rank(s))
  }

  /** The minimax value of s searched from depth to maxDepth: a leaf (the
      depth is reached, or s is terminal) has its score, a maximising node
      the largest of its children's values and a minimising node the
      smallest; a node without moves is -inf when maximising and +inf when
      minimising. */
  function Value<S(!new), A(!new)>(R: Rules<S, A>, s: S, depth: int, maxDepth: int, maximizing: bool): ExtInt
    requires WellFounded(R)
    decreases R.rank(s), if R.terminal(s) then 0 else 2
  {
    if depth == maxDepth || R.terminal(s) then Fin(R.score(s))
    else
      var vs := ChildValues(R, s, R.moves(s), depth + 1, maxDepth, !maximizing);
      if maximizing then MaxSeq(vs) else MinSeq(vs)
  }

  /** The values of the children reached by acts, in the order of acts. */
  function ChildValues<S(!new), A(!new)>(R: Rules<S, A>, s: S, acts: seq<A>, depth: int, maxDepth: int, maximizing: bool): (vs: seq<ExtInt>)
    requires WellFounded(R)
    requires forall a :: a in acts ==> a in R.moves(s)
    ensures |vs| == |acts|
    decreases R.rank(s), 1, |acts|
  {
    if acts == [] then []
    else
      ChildValues(R, s, acts[..|acts| - 1], depth, maxDepth, maximizing)
        + [Value(R, R.next(s, acts[|acts| - 1]), depth, maxDepth, maximizing)]
  }

  /** The i-th child value is the value of the position the i-th move leads to. */
  lemma {:induction false} ChildValuesAt<S(!new), A(!new)>(R: Rules<S, A>, s: S, acts: seq<A>, depth: int, maxDepth: int, maximizing: bool)
    requires WellFounded(R)
    requires forall a :: a in acts ==> a in R.moves(s)
    ensures forall i :: 0 <= i < |acts| ==>
      ChildValues(R, s, acts, depth, maxDepth, maximizing)[i] == Value(R, R.next(s, acts[i]), depth, maxDepth, maximizing)
    decreases |acts|
  {
    if acts != [] {
      ChildValuesAt(R, s, acts[..|acts| - 1], depth, maxDepth, maximizing);
    }
  }

  /** Two orderings of the same moves hold the same moves. */
  lemma PermutationMembers<A>(a1: seq<A>, a2: seq<A>)
    requires multiset(a1) == multiset(a2)
    ensures forall a :: a in a1 <==> a in a2
  {
    forall a ensures a in a1 <==> a in a2 {
      assert a in a1 <==> a in multiset(a1);
      assert a in a2 <==> a in multiset(a2);
    }
  }

  /** The i-th child value, on its own. */
  lemma ChildValueAt<S(!new), A(!new)>(R: Rules<S, A>, s: S, acts: seq<A>, i: int, depth: int, maxDepth: int, maximizing: bool)
    requires WellFounded(R)
    requires forall a :: a in acts ==> a in R.moves(s)
    requires 0 <= i < |acts|
    ensures ChildValues(R, s, acts, depth, maxDepth, maximizing)[i] == Value(R, R.next(s, acts[i]), depth, maxDepth, maximizing)
  {
    ChildValuesAt(R, s, acts, depth, maxDepth, maximizing);
  }

  /** Listing the same moves in another order lists the same child values. */
  lemma ChildValuesSameElements<S(!new), A(!new)>(R: Rules<S, A>, s: S, a1: seq<A>, a2: seq<A>, depth: int, maxDepth: int, maximizing: bool)
    requires WellFounded(R)
    requires forall a :: a in a1 ==> a in R.moves(s)
    requires multiset(a1) == multiset(a2)
    ensures forall a :: a in a2 ==> a in R.moves(s)
    ensures forall x :: x in ChildValues(R, s, a1, depth, maxDepth, maximizing)
                    <==> x in ChildValues(R, s, a2, depth, maxDepth, maximizing)
  {
    PermutationMembers(a1, a2);
    ChildValuesAt(R, s, a1, depth, maxDepth, maximizing);
    ChildValuesAt(R, s, a2, depth, maxDepth, maximizing);
    var v1 := ChildValues(R, s, a1, depth, maxDepth, maximizing);
    var v2 := ChildValues(R, s, a2, depth, maxDepth, maximizing);
    forall x ensures x in v1 <==> x in v2 {
      if x in v1 {
        var i :| 0 <= i < |v1| && v1[i] == x;
        assert a1[i] in a1;
        var j :| 0 <= j < |a2| && a2[j] == a1[i];
        assert v2[j] == x;
      }
      if x in v2 {
        var j :| 0 <= j < |v2| && v2[j] == x;
        assert a2[j] in a2;
        var i :| 0 <= i < |a1| && a1[i] == a2[j];
        assert v1[i] == x;
      }
    }
  }

  /** The value of an inner node does not depend on the order in which its
      moves are tried. */
  lemma ValueAnyOrder<S(!new), A(!new)>(R: Rules<S, A>, s: S, acts: seq<A>, depth: int, maxDepth: int, maximizing: bool)
    requires WellFounded(R) && depth != maxDepth && !R.terminal(s)
    requires multiset(acts) == multiset(R.moves(s))
    ensures forall a :: a in acts ==> a in R.moves(s)
    ensures var vs := ChildValues(R, s, acts, depth + 1, maxDepth, !maximizing);
            Value(R, s, depth, maxDepth, maximizing) == if maximizing then MaxSeq(vs) else MinSeq(vs)
  {
    ChildValuesSameElements(R, s, R.moves(s), acts, depth + 1, maxDepth, !maximizing);
    var vs := ChildValues(R, s, acts, depth + 1, maxDepth, !maximizing);
    var ws := ChildValues(R, s, R.moves(s), depth + 1, maxDepth, !maximizing);
    if maximizing {
      MaxSeqSameElements(ws, vs);
    } else {
      MinSeqSameElements(ws, vs);
    }
  }

  /** The first best move of a maximising node, whatever order its moves are
      listed in: it is absent exactly when every child value is -inf, it
      leads to a child whose value is the best one, and that best value is
      the node's own minimax value. */
  lemma FirstMaxChoice<S(!new), A(!new)>(R: Rules<S, A>, s: S, acts: seq<A>, k: int, depth: int, maxDepth: int)
    requires WellFounded(R)
    requires multiset(acts) == multiset(R.moves(s))
    requires forall a :: a in acts ==> a in R.moves(s)
    requires IsFirstMax(ChildValues(R, s, acts, depth + 1, maxDepth, false), k)
    ensures k == -1 <==> MaxSeq(ChildValues(R, s, R.moves(s), depth + 1, maxDepth, false)) == NegInf
    ensures k != -1 ==>
      && 0 <= k < |acts|
      && Value(R, R.next(s, acts[k]), depth + 1, maxDepth, false) == MaxSeq(ChildValues(R, s, R.moves(s), depth + 1, maxDepth, false))
    ensures depth != maxDepth && !R.terminal(s) ==>
      Value(R, s, depth, maxDepth, true) == MaxSeq(ChildValues(R, s, R.moves(s), depth + 1, maxDepth, false))
  {
    var all := ChildValues(R, s, acts, depth + 1, maxDepth, false);
    ChildValuesSameElements(R, s, R.moves(s), acts, depth + 1, maxDepth, false);
    MaxSeqSameElements(all, ChildValues(R, s, R.moves(s), depth + 1, maxDepth, false));
    FirstMaxUnique(all, k, k);
    if k != -1 {
      ChildValueAt(R, s, acts, k, depth + 1, maxDepth, false);
    }
  }
}
