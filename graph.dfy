/**
 * Walks over a directed edge relation between positions, and the invariant
 * of a breadth-first search. Both mazes search with a FIFO queue; the lemmas
 * here turn the invariant their loops keep into "the labels are exactly the
 * shortest walk lengths".
 */
module Graph {
  import opened Grid
  import opened Results

  /** A finite edge relation: (a, b) in E means one may step from a to b. */
  type Edges = set<(Pos, Pos)>

  /** A walk: a non-empty sequence of cells whose consecutive pairs are edges. */
  ghost predicate IsWalk(E: Edges, w: seq<Pos>) {
    |w| > 0 && forall i | 0 <= i < |w| - 1 :: (w[i], w[i + 1]) in E
  }

  ghost predicate WalkFromTo(E: Edges, w: seq<Pos>, a: Pos, b: Pos) {
    IsWalk(E, w) && w[0] == a && w[|w| - 1] == b
  }

  ghost predicate Reachable(E: Edges, a: Pos, b: Pos) {
    exists w :: WalkFromTo(E, w, a, b)
  }

  /** `d` is the number of steps of a shortest walk from `a` to `b`. */
  ghost predicate IsDistance(E: Edges, a: Pos, b: Pos, d: int) {
    && d >= 0
    && (exists w :: WalkFromTo(E, w, a, b) && |w| == d + 1)
    && (forall w | WalkFromTo(E, w, a, b) :: |w| >= d + 1)
  }

  lemma WalkExtend(E: Edges, w: seq<Pos>, x: Pos)
    requires IsWalk(E, w) && (w[|w| - 1], x) in E
    ensures IsWalk(E, w + [x])
  {
  }

  lemma WalkMono(E: Edges, F: Edges, w: seq<Pos>)
    requires IsWalk(E, w) && E <= F
    ensures IsWalk(F, w)
  {
  }

  lemma WalkPrefix(E: Edges, w: seq<Pos>, n: int)
    requires IsWalk(E, w) && 0 < n <= |w|
    ensures IsWalk(E, w[..n])
  {
  }

  /** The walk of one cell, and the walk that takes a single step. */
  lemma TrivialWalks(E: Edges, a: Pos)
    ensures WalkFromTo(E, [a], a, a)
    ensures forall b | (a, b) in E :: WalkFromTo(E, [a, b], a, b)
  {
  }

  /** The search labels every processed cell's successors, at most one further away. */
  ghost predicate ClosedOn(E: Edges, D: map<Pos, int>, P: set<Pos>) {
    forall a, b | (a, b) in E && a in P :: a in D && b in D && D[b] <= D[a] + 1
  }

  /**
   * If every cell labelled below `bound` is processed, any walk from the source
   * of at most `bound` steps ends on a labelled cell whose label is at most the
   * walk's number of steps.
   */
  lemma {:induction false} WalkLowerBound(E: Edges, D: map<Pos, int>, P: set<Pos>, src: Pos, bound: int, w: seq<Pos>)
    requires src in D && D[src] == 0
    requires ClosedOn(E, D, P)
    requires forall x | x in D && D[x] < bound :: x in P
    requires IsWalk(E, w) && w[0] == src && |w| - 1 <= bound
    ensures w[|w| - 1] in D && D[w[|w| - 1]] <= |w| - 1
    decreases |w|
  {
    if |w| > 1 {
      var u := w[..|w| - 1];
      WalkPrefix(E, w, |w| - 1);
      WalkLowerBound(E, D, P, src, bound, u);
      assert u[|u| - 1] == w[|w| - 2];
      assert (w[|w| - 2], w[|w| - 1]) in E;
    }
  }

  /** Each labelled cell carries a witness walk from the source with label+1 cells. */
  ghost predicate Witnessed(E: Edges, src: Pos, D: map<Pos, int>, W: map<Pos, seq<Pos>>) {
    forall p | p in D :: p in W && WalkFromTo(E, W[p], src, p) && |W[p]| == D[p] + 1
  }

  /**
   * The shape of a breadth-first search at the head of its loop: the source
   * is labelled 0, labels are witnessed, the queue holds the labelled cells
   * not yet processed in non-decreasing label order within [lo, lo+1], and
   * processed cells have labels at most lo.
   */
  ghost predicate BfsShape(E: Edges, src: Pos, D: map<Pos, int>, W: map<Pos, seq<Pos>>,
                           P: set<Pos>, Q: seq<Pos>, lo: int)
  {
    && src in D && D[src] == 0
    && Witnessed(E, src, D, W)
    && (forall i | 0 <= i < |Q| :: Q[i] in D && Q[i] !in P && lo <= D[Q[i]] <= lo + 1)
    && (forall i, j | 0 <= i < j < |Q| :: D[Q[i]] <= D[Q[j]] && Q[i] != Q[j])
    && (forall p | p in P :: p in D && D[p] <= lo)
    && (forall p | p in D :: p in P || p in Q)
  }

  ghost predicate BfsInv(E: Edges, src: Pos, D: map<Pos, int>, W: map<Pos, seq<Pos>>,
                         P: set<Pos>, Q: seq<Pos>, lo: int)
  {
    BfsShape(E, src, D, W, P, Q, lo) && ClosedOn(E, D, P)
  }

  lemma BfsInit(E: Edges, src: Pos)
    ensures BfsInv(E, src, map[src := 0], map[src := [src]], {}, [src], 0)
  {
    TrivialWalks(E, src);
  }

  /** Taking the head of the queue makes it processed, at level D[head]. */
  lemma BfsPop(E: Edges, src: Pos, D: map<Pos, int>, W: map<Pos, seq<Pos>>,
               P: set<Pos>, Q: seq<Pos>, lo: int)
    requires BfsInv(E, src, D, W, P, Q, lo) && |Q| > 0
    ensures BfsShape(E, src, D, W, P + {Q[0]}, Q[1..], D[Q[0]])
    ensures ClosedOn(E, D, P)
  {
    var c := Q[0];
    forall p | p in D
      ensures p in P + {c} || p in Q[1..]
    {
      if p !in P && p != c {
        assert p in Q;
        var i :| 0 <= i < |Q| && Q[i] == p;
        assert Q[1..][i - 1] == p;
      }
    }
    forall i | 0 <= i < |Q[1..]|
      ensures Q[1..][i] !in P + {c}
    {
      assert Q[1..][i] == Q[i + 1];
      assert Q[0] != Q[i + 1];
    }
    assert BfsShape(E, src, D, W, P + {c}, Q[1..], D[c]) by {
      forall i | 0 <= i < |Q[1..]|
        ensures Q[1..][i] in D && D[c] <= D[Q[1..][i]] <= D[c] + 1
      {
        assert Q[1..][i] == Q[i + 1];
        assert D[Q[0]] <= D[Q[i + 1]];
      }
      forall i, j | 0 <= i < j < |Q[1..]|
        ensures D[Q[1..][i]] <= D[Q[1..][j]] && Q[1..][i] != Q[1..][j]
      {
        assert Q[1..][i] == Q[i + 1] && Q[1..][j] == Q[j + 1];
      }
    }
  }

  /**
   * Labelling a new successor n of the cell c being processed (c in P at level
   * lo = D[c]) with lo+1 and queueing it keeps the shape and any closure.
   */
  lemma BfsDiscover(E: Edges, src: Pos, D: map<Pos, int>, W: map<Pos, seq<Pos>>,
                    P: set<Pos>, Q: seq<Pos>, c: Pos, n: Pos, C: set<Pos>)
    requires c in P && c in D && BfsShape(E, src, D, W, P, Q, D[c])
    requires (c, n) in E && n !in D
    requires ClosedOn(E, D, C)
    ensures BfsShape(E, src, D[n := D[c] + 1], W[n := W[c] + [n]], P, Q + [n], D[c])
    ensures ClosedOn(E, D[n := D[c] + 1], C)
  {
    var D' := D[n := D[c] + 1];
    var W' := W[n := W[c] + [n]];
    var Q' := Q + [n];
    WalkExtend(E, W[c], n);
    assert Witnessed(E, src, D', W');
    forall i | 0 <= i < |Q'|
      ensures Q'[i] in D' && Q'[i] !in P && D[c] <= D'[Q'[i]] <= D[c] + 1
    {
      if i < |Q| {
        assert Q'[i] == Q[i];
      }
    }
    forall i, j | 0 <= i < j < |Q'|
      ensures D'[Q'[i]] <= D'[Q'[j]] && Q'[i] != Q'[j]
    {
      if j < |Q| {
        assert Q'[i] == Q[i] && Q'[j] == Q[j];
      } else {
        assert Q'[i] == Q[i];
      }
    }
    forall p | p in D'
      ensures p in P || p in Q'
    {
      if p != n {
        assert p in P || p in Q;
      } else {
        assert Q'[|Q|] == n;
      }
    }
  }

  /** A successor that is already labelled is at most one level beyond the processed cell. */
  lemma BfsKnown(E: Edges, src: Pos, D: map<Pos, int>, W: map<Pos, seq<Pos>>,
                 P: set<Pos>, Q: seq<Pos>, c: Pos, n: Pos)
    requires c in P && c in D && BfsShape(E, src, D, W, P, Q, D[c]) && n in D
    ensures D[n] <= D[c] + 1
  {
    if n !in P {
      var i :| 0 <= i < |Q| && Q[i] == n;
    }
  }

  /** A processed cell all of whose successors are labelled within one step closes. */
  lemma BfsClose(E: Edges, D: map<Pos, int>, P: set<Pos>, c: Pos, P': set<Pos>)
    requires ClosedOn(E, D, P) && c in D
    requires forall n | (c, n) in E :: n in D && D[n] <= D[c] + 1
    requires forall x | x in P' :: x in P || x == c
    ensures ClosedOn(E, D, P')
  {
  }

  /** Once the queue is empty, the labels are exactly the shortest walk lengths. */
  lemma BfsComplete(E: Edges, src: Pos, D: map<Pos, int>, W: map<Pos, seq<Pos>>,
                    P: set<Pos>, lo: int)
    requires BfsInv(E, src, D, W, P, [], lo)
    ensures forall p | p in D :: IsDistance(E, src, p, D[p])
    ensures forall p :: p in D <==> Reachable(E, src, p)
  {
    forall p | p in D
      ensures IsDistance(E, src, p, D[p])
    {
      forall w | WalkFromTo(E, w, src, p)
        ensures |w| >= D[p] + 1
      {
        WalkLowerBound(E, D, P, src, |w|, w);
      }
      assert WalkFromTo(E, W[p], src, p);
    }
    forall p | Reachable(E, src, p)
      ensures p in D
    {
      var w :| WalkFromTo(E, w, src, p);
      WalkLowerBound(E, D, P, src, |w|, w);
    }
  }

  /**
   * While the queue is not empty, its head's label is already the length of
   * a shortest walk to it.
   */
  lemma BfsHeadIsShortest(E: Edges, src: Pos, D: map<Pos, int>, W: map<Pos, seq<Pos>>,
                          P: set<Pos>, Q: seq<Pos>, lo: int)
    requires BfsInv(E, src, D, W, P, Q, lo) && |Q| > 0
    ensures IsDistance(E, src, Q[0], D[Q[0]])
  {
    var c := Q[0];
    forall x | x in D && D[x] < D[c]
      ensures x in P
    {
    }
    forall w | WalkFromTo(E, w, src, c)
      ensures |w| >= D[c] + 1
    {
      if |w| - 1 < D[c] {
        WalkLowerBound(E, D, P, src, D[c], w);
      }
    }
    assert WalkFromTo(E, W[c], src, c);
  }

  /**
   * Parent links of a search from `src`: the source has none, and every
   * other labelled cell points to a labelled cell one level closer from
   * which it is one step away.
   */
  ghost predicate ParentTree(parent: map<Pos, Option<Pos>>, D: map<Pos, int>, E: Edges, src: Pos) {
    && parent.Keys == D.Keys
    && src in D && D[src] == 0 && parent[src] == None
    && (forall p | p in D :: D[p] >= 0)
    && (forall p | p in parent && p != src ::
          parent[p].Some? && parent[p].value in D && D[parent[p].value] == D[p] - 1 && (parent[p].value, p) in E)
  }

  /** Labelling a new successor n of c with D[c]+1 and linking it to c keeps the tree. */
  lemma ParentTreeGrow(parent: map<Pos, Option<Pos>>, D: map<Pos, int>, E: Edges, src: Pos, c: Pos, n: Pos)
    requires ParentTree(parent, D, E, src) && c in D && n !in D && (c, n) in E
    ensures ParentTree(parent[n := Some(c)], D[n := D[c] + 1], E, src)
  {
  }

  /** The head of the queue of a search in progress is labelled with its shortest distance. */
  lemma BfsHeadDistance(E: Edges, src: Pos, D: map<Pos, int>, W: map<Pos, seq<Pos>>,
                        P: set<Pos>, Q: seq<Pos>, lo: int)
    requires BfsInv(E, src, D, W, P, Q, lo) && |Q| > 0
    ensures Q[0] in D && D[Q[0]] == ShortestDistance(E, src, Q[0])
  {
    BfsHeadIsShortest(E, src, D, W, P, Q, lo);
    DistanceUnique(E, src, Q[0], D[Q[0]], ShortestDistance(E, src, Q[0]));
  }

  /** A walk of minimal length exists as soon as some walk exists. */
  lemma {:induction false} ShortestWalkExists(E: Edges, a: Pos, b: Pos, w: seq<Pos>)
    requires WalkFromTo(E, w, a, b)
    ensures exists d :: IsDistance(E, a, b, d)
    decreases |w|
  {
    if exists v :: WalkFromTo(E, v, a, b) && |v| < |w| {
      var v :| WalkFromTo(E, v, a, b) && |v| < |w|;
      ShortestWalkExists(E, a, b, v);
    } else {
      assert IsDistance(E, a, b, |w| - 1);
    }
  }

  lemma DistanceUnique(E: Edges, a: Pos, b: Pos, d1: int, d2: int)
    requires IsDistance(E, a, b, d1) && IsDistance(E, a, b, d2)
    ensures d1 == d2
  {
    var w1 :| WalkFromTo(E, w1, a, b) && |w1| == d1 + 1;
    var w2 :| WalkFromTo(E, w2, a, b) && |w2| == d2 + 1;
  }

  /**
   * The number of steps of a shortest walk from `a` to `b`, or -1 when `b`
   * cannot be reached from `a`.
   */
  ghost function ShortestDistance(E: Edges, a: Pos, b: Pos): (r: int)
    ensures r >= -1
    ensures r == -1 <==> !Reachable(E, a, b)
    ensures r != -1 ==> IsDistance(E, a, b, r)
  {
    if Reachable(E, a, b) then
      var w :| WalkFromTo(E, w, a, b);
      ShortestWalkExists(E, a, b, w);
      var d :| IsDistance(E, a, b, d);
      d
    else -1
  }

  /** What a completed search computes is the shortest distance, for every cell. */
  lemma BfsDistances(E: Edges, src: Pos, D: map<Pos, int>, W: map<Pos, seq<Pos>>,
                     P: set<Pos>, lo: int)
    requires BfsInv(E, src, D, W, P, [], lo)
    ensures forall p :: p in D <==> ShortestDistance(E, src, p) != -1
    ensures forall p | p in D :: D[p] == ShortestDistance(E, src, p)
  {
    BfsComplete(E, src, D, W, P, lo);
    forall p | p in D
      ensures D[p] == ShortestDistance(E, src, p)
    {
      DistanceUnique(E, src, p, D[p], ShortestDistance(E, src, p));
    }
  }

  /**
   * A cell at shortest distance d >= 1 has a predecessor, across one edge,
   * at shortest distance d-1.
   */
  lemma ShortestPredecessor(E: Edges, a: Pos, b: Pos) returns (y: Pos)
    requires ShortestDistance(E, a, b) >= 1
    ensures (y, b) in E
    ensures ShortestDistance(E, a, y) == ShortestDistance(E, a, b) - 1
  {
    var d := ShortestDistance(E, a, b);
    var w :| WalkFromTo(E, w, a, b) && |w| == d + 1;
    y := w[|w| - 2];
    var u := w[..|w| - 1];
    WalkPrefix(E, w, |w| - 1);
    assert WalkFromTo(E, u, a, y);
    var dy := ShortestDistance(E, a, y);
    assert dy <= d - 1;
    var v :| WalkFromTo(E, v, a, y) && |v| == dy + 1;
    WalkExtend(E, v, b);
    assert WalkFromTo(E, v + [b], a, b);
  }

  /** A shortest walk never comes back to the cell it starts from. */
  lemma ShortestWalkLeavesSource(E: Edges, w: seq<Pos>, a: Pos, b: Pos)
    requires WalkFromTo(E, w, a, b) && |w| == ShortestDistance(E, a, b) + 1
    ensures forall i | 0 < i < |w| :: w[i] != a
  {
    forall i | 0 < i < |w|
      ensures w[i] != a
    {
      if w[i] == a {
        assert WalkFromTo(E, w[i..], a, b);
      }
    }
  }

  /** A shortest walk never passes twice through a cell: cutting out the loop would give a shorter one. */
  lemma ShortestWalkRepeatFree(E: Edges, w: seq<Pos>, a: Pos, b: Pos)
    requires WalkFromTo(E, w, a, b) && |w| == ShortestDistance(E, a, b) + 1
    ensures forall i, j | 0 <= i < j < |w| :: w[i] != w[j]
  {
    forall i, j | 0 <= i < j < |w|
      ensures w[i] != w[j]
    {
      if w[i] == w[j] {
        WalkPrefix(E, w, i + 1);
        assert IsWalk(E, w[j..]);
        WalkConcat(E, w[..i + 1], w[j..]);
        assert WalkFromTo(E, w[..i + 1] + w[j..][1..], a, b);
      }
    }
  }

  /** Distance 0 means the same cell: the one-cell walk is the only walk without a step. */
  lemma DistanceZeroIff(E: Edges, a: Pos, b: Pos)
    ensures ShortestDistance(E, a, b) == 0 <==> a == b
  {
    if ShortestDistance(E, a, b) == 0 {
      var w :| WalkFromTo(E, w, a, b) && |w| == 1;
      assert a == w[0] == b;
    }
    if a == b {
      TrivialWalks(E, a);
      assert IsDistance(E, a, a, 0);
      DistanceUnique(E, a, a, 0, ShortestDistance(E, a, a));
    }
  }

  ghost predicate Symmetric(E: Edges) {
    forall a, b | (a, b) in E :: (b, a) in E
  }

  function Reverse(s: seq<Pos>): (r: seq<Pos>)
    ensures |r| == |s|
    ensures forall i | 0 <= i < |s| :: r[i] == s[|s| - 1 - i]
  {
    if s == [] then [] else Reverse(s[1..]) + [s[0]]
  }

  /** A sequence whose consecutive pairs are edges read backwards is a walk once reversed. */
  lemma BackwardWalk(E: Edges, s: seq<Pos>)
    requires |s| > 0
    requires forall i | 0 <= i < |s| - 1 :: (s[i + 1], s[i]) in E
    ensures IsWalk(E, Reverse(s))
  {
    var r := Reverse(s);
    forall i | 0 <= i < |r| - 1
      ensures (r[i], r[i + 1]) in E
    {
      assert r[i] == s[|s| - 1 - i] && r[i + 1] == s[|s| - 2 - i];
    }
  }

  lemma WalkConcat(E: Edges, v: seq<Pos>, w: seq<Pos>)
    requires IsWalk(E, v) && IsWalk(E, w) && v[|v| - 1] == w[0]
    ensures IsWalk(E, v + w[1..])
  {
    var r := v + w[1..];
    forall i | 0 <= i < |r| - 1
      ensures (r[i], r[i + 1]) in E
    {
      if i < |v| - 1 {
        assert r[i] == v[i] && r[i + 1] == v[i + 1];
      } else {
        assert r[i] == w[i - |v| + 1] && r[i + 1] == w[i - |v| + 2];
      }
    }
  }

  /** In a symmetric relation, two cells reachable from a common cell reach each other. */
  lemma ReachViaCommon(E: Edges, s: Pos, a: Pos, b: Pos)
    requires Symmetric(E) && Reachable(E, s, a) && Reachable(E, s, b)
    ensures Reachable(E, a, b)
  {
    var va :| WalkFromTo(E, va, s, a);
    var vb :| WalkFromTo(E, vb, s, b);
    var ra := Reverse(va);
    BackwardWalk(E, va);
    WalkConcat(E, ra, vb);
    assert WalkFromTo(E, ra + vb[1..], a, b);
  }
}
