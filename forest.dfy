/** The shape a Fibonacci heap's nodes must have: a forest of heap-ordered
    trees whose children, and whose roots, each form one ring. The ghost
    bookkeeping is
      L: the live nodes (those the heap still owns),
      K: for each live node, its children ring in `next` order,
      P: for each live node, the path from its tree's root down to it,
      R: the root ring in `next` order, starting at `roots`. */
module Forest {
  import opened Nodes

  /** The obligations of one live node `x`. */
  ghost predicate LiveOk(ns: seq<Node>, L: set<int>, K: map<int, seq<int>>, P: map<int, seq<int>>, x: int)
  {
    && 0 <= x < |ns| && x in K && x in P
    && Ring(ns, K[x]) && |K[x]| == ns[x].degree
    && (|K[x]| > 0 ==> ns[x].children == K[x][0])
    && (forall i | 0 <= i < |K[x]| :: K[x][i] in L && ns[K[x][i]].parent == x)
    && |P[x]| > 0 && P[x][|P[x]| - 1] == x
    && (ns[x].parent == NIL ==> P[x] == [x])
    && (ns[x].parent != NIL ==>
          && 0 <= ns[x].parent < |ns| && ns[x].parent in L && ns[x].parent in K && ns[x].parent in P
          && x in K[ns[x].parent]
          && P[x] == P[ns[x].parent] + [x]
          && ns[ns[x].parent].value <= ns[x].value)
  }

  /** Every live node keeps its obligations. */
  ghost predicate ForestOk(ns: seq<Node>, L: set<int>, K: map<int, seq<int>>, P: map<int, seq<int>>)
  {
    forall x {:trigger LiveOk(ns, L, K, P, x)} | x in L :: LiveOk(ns, L, K, P, x)
  }

  /** The members of `R` are exactly the live parentless nodes. */
  ghost predicate RootsOf(ns: seq<Node>, R: seq<int>, L: set<int>)
  {
    && (forall i | 0 <= i < |R| :: R[i] in L && 0 <= R[i] < |ns| && ns[R[i]].parent == NIL)
    && (forall x | x in L :: 0 <= x < |ns| && (ns[x].parent == NIL ==> x in R))
  }

  /** The heap's own fields against the root ring `R`: `degree` counts it,
      `roots` is its first member, `min` is a member whose value is at most
      every root's, and the roots are exactly the live parentless nodes. */
  ghost predicate RootRingOk(ns: seq<Node>, roots: int, min: int, degree: nat, R: seq<int>, L: set<int>)
  {
    && |R| == degree && Ring(ns, R)
    && (degree == 0 ==> roots == NIL && min == NIL)
    && (degree > 0 ==>
          && roots == R[0] && min in R
          && (forall i | 0 <= i < |R| :: ns[min].value <= ns[R[i]].value))
    && RootsOf(ns, R, L)
  }

  /** The minimum root is at most every live value: walk up from `x` to
      its tree's root, which is in the ring. */
  lemma {:induction false} MinBelowLive(ns: seq<Node>, roots: int, min: int, degree: nat,
                                        R: seq<int>, L: set<int>, K: map<int, seq<int>>, P: map<int, seq<int>>, x: int)
    requires ForestOk(ns, L, K, P) && RootRingOk(ns, roots, min, degree, R, L)
    requires x in L && x in P
    ensures degree > 0 && 0 <= min < |ns| && ns[min].value <= ns[x].value
    decreases |P[x]|
  {
    assert LiveOk(ns, L, K, P, x);
    var p := ns[x].parent;
    if p == NIL {
      assert x in R;
      var i :| 0 <= i < |R| && R[i] == x;
    } else {
      assert LiveOk(ns, L, K, P, p);
      MinBelowLive(ns, roots, min, degree, R, L, K, P, p);
    }
  }

  /** The forest does not depend on anything but its live nodes' fields,
      and on the ring links of the live nodes that have a parent. */
  lemma ForestFrame(ns: seq<Node>, ns': seq<Node>, L: set<int>, K: map<int, seq<int>>, P: map<int, seq<int>>)
    requires ForestOk(ns, L, K, P) && |ns| <= |ns'|
    requires forall x | x in L && 0 <= x < |ns| ::
      && ns'[x].value == ns[x].value && ns'[x].parent == ns[x].parent
      && ns'[x].children == ns[x].children && ns'[x].degree == ns[x].degree
    requires forall x | x in L && 0 <= x < |ns| && ns[x].parent != NIL ::
      ns'[x].next == ns[x].next && ns'[x].prev == ns[x].prev
    ensures ForestOk(ns', L, K, P)
  {
    forall x | x in L ensures LiveOk(ns', L, K, P, x) {
      assert LiveOk(ns, L, K, P, x);
      forall i | 0 <= i < |K[x]| ensures 0 <= K[x][i] < |ns| ==>
          0 <= K[x][i] < |ns'| && ns'[K[x][i]].next == ns[K[x][i]].next && ns'[K[x][i]].prev == ns[K[x][i]].prev
      {
        assert K[x][i] in L && ns[K[x][i]].parent == x;
      }
      RingFrame(ns, ns', K[x]);
      if ns[x].parent != NIL {
        assert LiveOk(ns, L, K, P, ns[x].parent);
      }
    }
  }

  /** A new childless, parentless node joins the forest as a tree of its own. */
  lemma ForestAddRoot(ns: seq<Node>, L: set<int>, K: map<int, seq<int>>, P: map<int, seq<int>>, h: int)
    requires ForestOk(ns, L, K, P) && h !in L && 0 <= h < |ns|
    requires ns[h].parent == NIL && ns[h].degree == 0
    ensures ForestOk(ns, L + {h}, K[h := []], P[h := [h]])
  {
    var L', K', P' := L + {h}, K[h := []], P[h := [h]];
    forall x | x in L' ensures LiveOk(ns, L', K', P', x) {
      if x != h {
        assert LiveOk(ns, L, K, P, x);
        if ns[x].parent != NIL {
          assert LiveOk(ns, L, K, P, ns[x].parent);
        }
      }
    }
  }

  /** Every live node's path starts at a live root of the forest. */
  lemma {:induction false} RootOfLive(ns: seq<Node>, L: set<int>, K: map<int, seq<int>>, P: map<int, seq<int>>, y: int)
    requires ForestOk(ns, L, K, P) && y in L
    ensures y in P && |P[y]| > 0 && P[y][0] in L && P[y][0] in P
    ensures 0 <= P[y][0] < |ns| && ns[P[y][0]].parent == NIL && P[P[y][0]] == [P[y][0]]
    decreases if y in P then |P[y]| else 0
  {
    assert LiveOk(ns, L, K, P, y);
    var p := ns[y].parent;
    if p != NIL {
      assert LiveOk(ns, L, K, P, p);
      RootOfLive(ns, L, K, P, p);
      assert P[y][0] == P[p][0];
    }
  }

  /** A childless root's tree is the root alone. */
  lemma {:induction false} ChildlessTree(ns: seq<Node>, L: set<int>, K: map<int, seq<int>>, P: map<int, seq<int>>, m: int, y: int)
    requires ForestOk(ns, L, K, P) && m in K && K[m] == []
    requires y in L && y in P && |P[y]| > 0 && P[y][0] == m
    ensures y == m
    decreases |P[y]|
  {
    assert LiveOk(ns, L, K, P, y);
    var p := ns[y].parent;
    if p != NIL {
      assert LiveOk(ns, L, K, P, p);
      ChildlessTree(ns, L, K, P, m, p);
      assert false;
    }
  }

  /** A part of the forest closed under parents and children is a forest. */
  lemma ForestRestrict(ns: seq<Node>, L: set<int>, K: map<int, seq<int>>, P: map<int, seq<int>>, L': set<int>)
    requires ForestOk(ns, L, K, P) && L' <= L
    requires forall y | y in L' && 0 <= y < |ns| && ns[y].parent != NIL :: ns[y].parent in L'
    requires forall y, i | y in L' && y in K && 0 <= i < |K[y]| :: K[y][i] in L'
    ensures ForestOk(ns, L', K, P)
  {
    forall y | y in L' ensures LiveOk(ns, L', K, P, y) {
      assert LiveOk(ns, L, K, P, y);
    }
  }

  /** The trees whose roots are in `T`. */
  ghost function TreesOf(L: set<int>, P: map<int, seq<int>>, T: set<int>): (L': set<int>)
    ensures L' <= L
  {
    set y | y in L && y in P && |P[y]| > 0 && P[y][0] in T
  }

  /** Keeping whole trees keeps a forest. */
  lemma ForestTrees(ns: seq<Node>, L: set<int>, K: map<int, seq<int>>, P: map<int, seq<int>>, T: set<int>)
    requires ForestOk(ns, L, K, P)
    ensures ForestOk(ns, TreesOf(L, P, T), K, P)
  {
    var L' := TreesOf(L, P, T);
    forall y | y in L' && 0 <= y < |ns| && ns[y].parent != NIL ensures ns[y].parent in L' {
      assert LiveOk(ns, L, K, P, y);
      assert LiveOk(ns, L, K, P, ns[y].parent);
    }
    forall y, i | y in L' && y in K && 0 <= i < |K[y]| ensures K[y][i] in L' {
      assert LiveOk(ns, L, K, P, y);
      assert LiveOk(ns, L, K, P, K[y][i]);
    }
    ForestRestrict(ns, L, K, P, L');
  }

  /** The paths once the children of root `m` have become roots. */
  ghost function Unhang(P: map<int, seq<int>>, m: int): map<int, seq<int>>
  {
    map y | y in P :: if |P[y]| > 1 && P[y][0] == m then P[y][1..] else P[y]
  }

  /** The paths once root `o`'s tree hangs below root `c`. */
  ghost function Hang(P: map<int, seq<int>>, o: int, c: int): map<int, seq<int>>
  {
    map y | y in P :: if |P[y]| > 0 && P[y][0] == o then [c] + P[y] else P[y]
  }

  /** The frame `ForestPromote` and `PromoteOne` work in: `ns'` is `ns`
      once root `m`'s children have lost their parent and `m` its degree,
      with ring links changed for parentless nodes only. */
  ghost predicate Uprooted(ns: seq<Node>, ns': seq<Node>, L: set<int>, m: int)
  {
    && |ns| <= |ns'| && 0 <= m < |ns| && ns[m].parent == NIL
    && ns'[m].value == ns[m].value && ns'[m].parent == NIL && ns'[m].degree == 0
    && (forall x | x in L && 0 <= x < |ns| && ns[x].parent == m ::
          && ns'[x].value == ns[x].value && ns'[x].parent == NIL
          && ns'[x].children == ns[x].children && ns'[x].degree == ns[x].degree)
    && (forall x | x in L && 0 <= x < |ns| && x != m && ns[x].parent != m ::
          && ns'[x].value == ns[x].value && ns'[x].parent == ns[x].parent
          && ns'[x].children == ns[x].children && ns'[x].degree == ns[x].degree)
    && (forall x | x in L && 0 <= x < |ns| && ns[x].parent != NIL && ns[x].parent != m ::
          ns'[x].next == ns[x].next && ns'[x].prev == ns[x].prev)
  }

  /** Lines 88-92: clearing the parent of every child of root `m` and
      zeroing its degree turns its children into trees of their own; ring
      links may change for parentless nodes only. */
  lemma ForestPromote(ns: seq<Node>, ns': seq<Node>, L: set<int>, K: map<int, seq<int>>, P: map<int, seq<int>>, m: int)
    requires ForestOk(ns, L, K, P) && m in L && Uprooted(ns, ns', L, m)
    ensures ForestOk(ns', L, K[m := []], Unhang(P, m))
  {
    forall y | y in L ensures LiveOk(ns', L, K[m := []], Unhang(P, m), y) {
      PromoteOne(ns, ns', L, K, P, m, y);
    }
  }

  /** `ForestPromote` for one live node `y`. */
  lemma PromoteOne(ns: seq<Node>, ns': seq<Node>, L: set<int>, K: map<int, seq<int>>, P: map<int, seq<int>>, m: int, y: int)
    requires ForestOk(ns, L, K, P) && m in L && Uprooted(ns, ns', L, m) && y in L
    ensures LiveOk(ns', L, K[m := []], Unhang(P, m), y)
  {
    var K', P' := K[m := []], Unhang(P, m);
    assert LiveOk(ns, L, K, P, m);
    assert LiveOk(ns, L, K, P, y);
    if y == m {
      assert P'[y] == [m];
    } else {
      PromoteKids(ns, ns', L, K, P, m, y);
      var p := ns[y].parent;
      if p == m {
        assert P[y] == [m, y];
        assert P'[y] == [y];
      } else if p != NIL {
        PromotePath(ns, L, K, P, m, y);
      }
    }
  }

  /** A node other than root `m` keeps its children ring. */
  lemma PromoteKids(ns: seq<Node>, ns': seq<Node>, L: set<int>, K: map<int, seq<int>>, P: map<int, seq<int>>, m: int, y: int)
    requires Uprooted(ns, ns', L, m) && y in L && y != m && LiveOk(ns, L, K, P, y)
    ensures Ring(ns', K[y]) && forall i | 0 <= i < |K[y]| :: ns'[K[y][i]].parent == y
  {
    forall i | 0 <= i < |K[y]| ensures 0 <= K[y][i] < |ns| ==>
        0 <= K[y][i] < |ns'| && ns'[K[y][i]].next == ns[K[y][i]].next && ns'[K[y][i]].prev == ns[K[y][i]].prev
    {
      assert K[y][i] in L && ns[K[y][i]].parent == y;
    }
    RingFrame(ns, ns', K[y]);
    forall i | 0 <= i < |K[y]| ensures ns'[K[y][i]].parent == y {
      assert K[y][i] in L && ns[K[y][i]].parent == y;
    }
  }

  /** A node below a child of root `m`, or in another tree, keeps its
      path relation to its parent once `m` is cut off the paths. */
  lemma PromotePath(ns: seq<Node>, L: set<int>, K: map<int, seq<int>>, P: map<int, seq<int>>, m: int, y: int)
    requires ForestOk(ns, L, K, P) && y in L && y != m && 0 <= y < |ns|
    requires ns[y].parent != NIL && ns[y].parent != m
    ensures y in P && ns[y].parent in P && Unhang(P, m)[y] == Unhang(P, m)[ns[y].parent] + [y]
  {
    var p := ns[y].parent;
    assert LiveOk(ns, L, K, P, y);
    assert LiveOk(ns, L, K, P, p);
    assert P[y][0] == P[p][0];
    if |P[p]| > 1 && P[p][0] == m {
      assert Unhang(P, m)[y] == P[y][1..] == P[p][1..] + [y];
    }
  }
}
