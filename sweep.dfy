/** The consolidation loop of `Pop` (lines 114-144) seen on a well-formed
    heap. The loop walks the first `N` members of the root ring `S`; every
    walked root ends up, directly or below another root, in a tree whose
    root sits in the degree table.

    A root of degree `d` weighs `2^d`. Linking two roots of degree `d`
    gives one of degree `d + 1` and so keeps the total weight; a table
    whose slot `k` holds a root of degree `k` weighs less than
    `2^|table|`. That pins down exactly when the table is too small. */
module Sweep {
  import opened Nodes
  import opened Forest
  import opened Consolidation

  /** Total weight of the roots in `s`, each weighing two to its degree
      (an index outside the arena weighs one). */
  function Weight(ns: seq<Node>, s: seq<int>): (w: nat)
    ensures w >= |s|
  {
    if s == [] then 0
    else
      var x := s[|s| - 1];
      Weight(ns, s[..|s| - 1]) + Pow2(if 0 <= x < |ns| then ns[x].degree else 0)
  }

  /** Weight of the table's occupied slots: slot `k` weighs `2^k`. */
  function TableWeight(table: seq<int>): (w: nat)
  {
    if table == [] then 0
    else TableWeight(table[..|table| - 1]) + (if table[|table| - 1] != NIL then Pow2(|table| - 1) else 0)
  }

  /** The nodes the table holds. */
  ghost function Held(table: seq<int>): set<int>
  {
    set k | 0 <= k < |table| && table[k] != NIL :: table[k]
  }

  /** `2^a <= 2^b` when `a <= b`. */
  lemma {:induction false} Pow2Mono(a: nat, b: nat)
    requires a <= b
    ensures Pow2(a) <= Pow2(b)
    decreases b
  {
    if a < b {
      Pow2Mono(a, b - 1);
    }
  }

  /** A table whose slot `k` can only weigh `2^k` weighs less than `2^|table|`. */
  lemma {:induction false} TableWeightBound(table: seq<int>)
    ensures TableWeight(table) < Pow2(|table|)
  {
    if table != [] {
      TableWeightBound(table[..|table| - 1]);
    }
  }

  /** An empty table weighs nothing and holds nothing. */
  lemma {:induction false} TableWeightEmpty(table: seq<int>)
    requires forall k | 0 <= k < |table| :: table[k] == NIL
    ensures TableWeight(table) == 0 && Held(table) == {}
  {
    if table != [] {
      TableWeightEmpty(table[..|table| - 1]);
    }
  }

  /** Rewriting slot `d` trades its old weight for its new one. */
  lemma {:induction false} TableWeightUpdate(table: seq<int>, d: int, x: int)
    requires 0 <= d < |table|
    ensures TableWeight(table[d := x]) + (if table[d] != NIL then Pow2(d) else 0)
         == TableWeight(table) + (if x != NIL then Pow2(d) else 0)
  {
    var n := |table| - 1;
    var t := table[d := x];
    if d < n {
      assert t[..n] == table[..n][d := x];
      TableWeightUpdate(table[..n], d, x);
    } else {
      assert t[..n] == table[..n];
    }
  }

  /** Emptying slot `d` while carrying a root of degree `d + 1` instead of
      `d` keeps the total. */
  lemma CarryWeight(table: seq<int>, d: nat, w: nat)
    requires d < |table| && table[d] != NIL && TableWeight(table) + Pow2(d) == w
    ensures TableWeight(table[d := NIL]) + Pow2(d + 1) == w
  {
    TableWeightUpdate(table, d, NIL);
  }

  /** Walking further never loses weight. */
  lemma {:induction false} WeightPrefix(ns: seq<Node>, s: seq<int>, a: nat, b: nat)
    requires a <= b <= |s|
    ensures Weight(ns, s[..a]) <= Weight(ns, s[..b])
    decreases b
  {
    if a < b {
      assert s[..b][..b - 1] == s[..b - 1];
      WeightPrefix(ns, s, a, b - 1);
    }
  }

  /** The weight only depends on the degrees of the members. */
  lemma {:induction false} WeightFrame(ns: seq<Node>, ns': seq<Node>, s: seq<int>)
    requires |ns'| == |ns|
    requires forall k | 0 <= k < |s| && 0 <= s[k] < |ns| :: ns'[s[k]].degree == ns[s[k]].degree
    ensures Weight(ns', s) == Weight(ns, s)
  {
    if s != [] {
      WeightFrame(ns, ns', s[..|s| - 1]);
    }
  }

  /** One more walked root adds its own weight. */
  lemma WeightSnoc(ns: seq<Node>, s: seq<int>, j: nat)
    requires j < |s| && 0 <= s[j] < |ns|
    ensures Weight(ns, s[..j + 1]) == Weight(ns, s[..j]) + Pow2(ns[s[j]].degree)
  {
    assert s[..j + 1][..j] == s[..j];
  }

  /** Roots of degree zero weigh one each, so that many of them always
      fit a table of `floor(log2(n)) + 1` slots. */
  lemma {:induction false} FreshRootsFit(ns: seq<Node>, s: seq<int>)
    requires |s| > 0
    requires forall k | 0 <= k < |s| && 0 <= s[k] < |ns| :: ns[s[k]].degree == 0
    ensures Weight(ns, s) == |s| < Pow2(FloorLog2(|s|) + 1)
  {
    if |s| > 1 {
      FreshRootsFit(ns, s[..|s| - 1]);
    }
  }

  /** Each live tree whose root at the start is in `W` now hangs below a
      root in `H`; every other tree is as it was at the start. */
  ghost predicate Hung(L: set<int>, P0: map<int, seq<int>>, P: map<int, seq<int>>, W: seq<int>, H: set<int>)
  {
    && L <= P0.Keys && L <= P.Keys
    && forall y {:trigger P0[y]} | y in L && y in P0 && y in P ::
         |P0[y]| > 0 && |P[y]| > 0 && if P0[y][0] in W then P[y][0] in H else P[y] == P0[y]
  }

  /** Between turns of the outer loop, `j` members of the ring `S` walked.
      `ns0`, `L` and `P0` are the arena, the live nodes and the paths when
      the loop starts; `ns`, `K`, `P` the current ones. */
  ghost predicate Walked(ns0: seq<Node>, S: seq<int>, L: set<int>, P0: map<int, seq<int>>,
                         ns: seq<Node>, table: seq<int>, K: map<int, seq<int>>, P: map<int, seq<int>>, j: int)
  {
    && Distinct(S) && RootsOf(ns0, S, L) && 0 <= j <= |S| && |ns| == |ns0|
    && ForestOk(ns, L, K, P) && TableOk(ns, table)
    // the table holds walked, live, parentless nodes
    && (forall k | 0 <= k < |table| && table[k] != NIL ::
          table[k] in L && ns[table[k]].parent == NIL && table[k] in S[..j])
    // the roots not yet walked are untouched
    && (forall k {:trigger ns[S[k]]} | j <= k < |S| :: ns[S[k]] == ns0[S[k]])
    // a walked tree now hangs below a held root; any other tree is as it was
    && Hung(L, P0, P, S[..j], Held(table))
    && TableWeight(table) == Weight(ns0, S[..j])
  }

  /** Before turn `j` of the outer loop, `left` roots remain to be walked
      and the next one is at `roots`. */
  ghost predicate Turn(ns0: seq<Node>, S: seq<int>, L: set<int>, P0: map<int, seq<int>>,
                       ns: seq<Node>, table: seq<int>, K: map<int, seq<int>>, P: map<int, seq<int>>,
                       j: int, left: nat, roots: int)
  {
    && Chain(ns0, S) && j + left == |S| && (left > 0 ==> 0 <= j < |S| && roots == S[j])
    && Walked(ns0, S, L, P0, ns, table, K, P, j)
  }

  /** Inside the inner loop of turn `j`: root `cur` is being carried up
      the table. */
  ghost predicate Carrying(ns0: seq<Node>, S: seq<int>, L: set<int>, P0: map<int, seq<int>>,
                           ns: seq<Node>, table: seq<int>, K: map<int, seq<int>>, P: map<int, seq<int>>,
                           j: int, cur: int)
  {
    && Distinct(S) && RootsOf(ns0, S, L) && 0 <= j < |S| && |ns| == |ns0|
    && ForestOk(ns, L, K, P) && TableOk(ns, table)
    && cur in L && 0 <= cur < |ns| && ns[cur].parent == NIL && cur in S[..j + 1]
    && (forall k | 0 <= k < |table| && table[k] != NIL ::
          table[k] in L && ns[table[k]].parent == NIL && table[k] in S[..j + 1] && table[k] != cur)
    && (forall k {:trigger ns[S[k]]} | j < k < |S| :: ns[S[k]] == ns0[S[k]])
    && Hung(L, P0, P, S[..j + 1], Held(table) + {cur})
    && TableWeight(table) + Pow2(ns[cur].degree) == Weight(ns0, S[..j + 1])
  }

  /** Lines 114-115: before the first turn, with an empty table. */
  lemma WalkStart(ns0: seq<Node>, S: seq<int>, L: set<int>, K0: map<int, seq<int>>, P0: map<int, seq<int>>,
                  table: seq<int>, roots: int)
    requires Chain(ns0, S) && Distinct(S) && |S| > 0 && roots == S[0] && RootsOf(ns0, S, L) && ForestOk(ns0, L, K0, P0)
    requires forall k | 0 <= k < |table| :: table[k] == NIL
    ensures Turn(ns0, S, L, P0, ns0, table, K0, P0, 0, |S|, roots)
  {
    TableWeightEmpty(table);
    assert S[0..] == S;
    forall y | y in L ensures y in P0 && |P0[y]| > 0 {
      assert LiveOk(ns0, L, K0, P0, y);
    }
    assert Hung(L, P0, P0, S[..0], Held(table));
  }

  /** Lines 117-118: turn `j` picks up the next root of the ring. */
  lemma WalkTake(ns0: seq<Node>, S: seq<int>, L: set<int>, P0: map<int, seq<int>>,
                 ns: seq<Node>, table: seq<int>, K: map<int, seq<int>>, P: map<int, seq<int>>, j: int)
    requires Walked(ns0, S, L, P0, ns, table, K, P, j) && j < |S|
    ensures Carrying(ns0, S, L, P0, ns, table, K, P, j, S[j])
    ensures ns[S[j]] == ns0[S[j]]
  {
    assert S[..j + 1] == S[..j] + [S[j]];
    assert S[j..] == [S[j]] + S[j + 1..];
    WeightSnoc(ns0, S, j);
    forall k | 0 <= k < |table| && table[k] != NIL ensures table[k] != S[j] {
      var i :| 0 <= i < j && S[i] == table[k];
    }
  }

  /** Line 143: a root whose degree slot is free settles there, and the
      turn is over. */
  lemma WalkPlace(ns0: seq<Node>, S: seq<int>, L: set<int>, P0: map<int, seq<int>>,
                  ns: seq<Node>, table: seq<int>, K: map<int, seq<int>>, P: map<int, seq<int>>, j: int, cur: int)
    requires Carrying(ns0, S, L, P0, ns, table, K, P, j, cur)
    requires ns[cur].degree < |table| && table[ns[cur].degree] == NIL
    ensures Walked(ns0, S, L, P0, ns, table[ns[cur].degree := cur], K, P, j + 1)
  {
    var d := ns[cur].degree;
    var t := table[d := cur];
    TableWeightUpdate(table, d, cur);
    assert t[d] == cur && cur in Held(t);
    forall x | x in Held(table) ensures x in Held(t) {
      var k :| 0 <= k < |table| && table[k] != NIL && table[k] == x;
      assert k != d && t[k] == x;
    }
  }

  /** Lines 117-120: `cur` has outgrown the table, so the slot for its
      degree is past the table's end; the roots walked so far already
      weigh at least `2^|table|`, and so does any longer prefix of the
      ring. */
  lemma WalkOverflow(ns0: seq<Node>, S: seq<int>, L: set<int>, P0: map<int, seq<int>>,
                     ns: seq<Node>, table: seq<int>, K: map<int, seq<int>>, P: map<int, seq<int>>,
                     j: int, cur: int, n: int)
    requires Carrying(ns0, S, L, P0, ns, table, K, P, j, cur)
    requires ns[cur].degree >= |table| && j < n <= |S|
    ensures Weight(ns0, S[..n]) >= Pow2(|table|)
  {
    Pow2Mono(|table|, ns[cur].degree);
    WeightPrefix(ns0, S, j + 1, n);
  }

  /** Lines 116-144, once every root is walked: no live node was lost, the
      occupied slots hold exactly the live parentless nodes, each once, at
      least one slot is occupied, and the ring weighed less than
      `2^|table|`. */
  lemma WalkEnd(ns0: seq<Node>, S: seq<int>, L: set<int>, K0: map<int, seq<int>>, P0: map<int, seq<int>>,
                ns: seq<Node>, table: seq<int>, K: map<int, seq<int>>, P: map<int, seq<int>>, j: int, roots: int)
    requires ForestOk(ns0, L, K0, P0) && Turn(ns0, S, L, P0, ns, table, K, P, j, 0, roots)
    ensures Weight(ns0, S) < Pow2(|table|)
    ensures ForestOk(ns, L, K, P) && TableOk(ns, table) && Distinct(Present(table))
    ensures RootsOf(ns, Present(table), L)
    ensures |S| > 0 ==> Present(table) != []
  {
    assert j == |S| && S[..|S|] == S;
    TableWeightBound(table);
    PresentMembers(table);
    PresentDistinct(ns, table);
    var T := Present(table);
    forall i | 0 <= i < |T| ensures T[i] in L && 0 <= T[i] < |ns| && ns[T[i]].parent == NIL {
      assert T[i] in T;
      var k :| 0 <= k < |table| && table[k] == T[i];
    }
    forall x | x in L ensures 0 <= x < |ns| && (ns[x].parent == NIL ==> x in T) {
      assert LiveOk(ns, L, K, P, x);
      if ns[x].parent == NIL {
        RootOfLive(ns0, L, K0, P0, x);
        var r := P0[x][0];
        assert r in S;
        assert P[x][0] in Held(table);
      }
    }
    if |S| > 0 {
      var x := S[0];
      assert LiveOk(ns0, L, K0, P0, x);
      assert P0[x][0] == x && x in S[..|S|];
      assert P[x][0] in Held(table);
    }
  }

  /** `cur` meets the root held in its degree's slot; `c` is the one with
      the smaller value (`cur` on a tie) and `o` the other (lines 121-124). */
  ghost predicate Meets(ns: seq<Node>, table: seq<int>, cur: int, c: int, o: int)
    requires 0 <= cur < |ns|
  {
    && ns[cur].degree < |table| && table[ns[cur].degree] != NIL
    && 0 <= table[ns[cur].degree] < |ns|
    && var other := table[ns[cur].degree];
       (c, o) == if ns[other].value < ns[cur].value then (other, cur) else (cur, other)
  }

  /** A link keeps every remaining slot at its own degree once the
      slot of the carried degree is cleared (lines 120-141). */
  lemma WalkLinkTable(ns0: seq<Node>, S: seq<int>, L: set<int>, P0: map<int, seq<int>>,
                      ns: seq<Node>, table: seq<int>, K: map<int, seq<int>>, P: map<int, seq<int>>,
                      j: int, cur: int, c: int, o: int)
    requires Shape(ns) && Carrying(ns0, S, L, P0, ns, table, K, P, j, cur) && Meets(ns, table, cur, c, o)
    ensures IsAddr(ns, c) && IsAddr(ns, o) && c != o
    ensures TableOk(Link(ns, c, o), table[ns[cur].degree := NIL])
    ensures var t := table[ns[cur].degree := NIL];
      forall k | 0 <= k < |t| && t[k] != NIL ::
        t[k] in L && Link(ns, c, o)[t[k]].parent == NIL && t[k] in S[..j + 1] && t[k] != c
  {
    var d := ns[cur].degree;
    var r := Link(ns, c, o);
    var t := table[d := NIL];
    assert ns[table[d]].degree == d;
    forall k | 0 <= k < |t| && t[k] != NIL
      ensures IsAddr(r, t[k]) && r[t[k]].degree == k && t[k] in L && r[t[k]].parent == NIL
      ensures t[k] in S[..j + 1] && t[k] != c
    {
      assert k != d && t[k] == table[k] && ns[table[k]].degree == k;
    }
  }

  /** A link touches only roots already walked: the roots still to be
      walked are as they were when the walk began. */
  lemma WalkLinkUntouched(ns0: seq<Node>, S: seq<int>, L: set<int>, P0: map<int, seq<int>>,
                          ns: seq<Node>, table: seq<int>, K: map<int, seq<int>>, P: map<int, seq<int>>,
                          j: int, cur: int, c: int, o: int)
    requires Shape(ns) && Carrying(ns0, S, L, P0, ns, table, K, P, j, cur) && Meets(ns, table, cur, c, o)
    requires c in K && IsAddr(ns, c) && IsAddr(ns, o) && c in S[..j + 1] && o in S[..j + 1]
    ensures forall k | j < k < |S| :: Link(ns, c, o)[S[k]] == ns0[S[k]]
  {
    var r := Link(ns, c, o);
    LinkLinks(ns, L, K, P, c, o, r);
    var ic :| 0 <= ic <= j && S[ic] == c;
    var io :| 0 <= io <= j && S[io] == o;
    forall k | j < k < |S| ensures r[S[k]] == ns0[S[k]] {
      assert S[k] != S[ic] && S[k] != S[io];
      assert ns0[S[k]].parent == NIL && ns[S[k]] == ns0[S[k]];
    }
  }

  /** After a link, the tree of `o` hangs below `c`, which is carried on
      instead of sitting in the table. */
  lemma WalkLinkPaths(ns0: seq<Node>, S: seq<int>, L: set<int>, P0: map<int, seq<int>>,
                      ns: seq<Node>, table: seq<int>, K: map<int, seq<int>>, P: map<int, seq<int>>,
                      j: int, cur: int, c: int, o: int)
    requires Carrying(ns0, S, L, P0, ns, table, K, P, j, cur) && Meets(ns, table, cur, c, o)
    ensures Hung(L, P0, Hang(P, o, c), S[..j + 1], Held(table[ns[cur].degree := NIL]) + {c})
  {
    var d := ns[cur].degree;
    var t := table[d := NIL];
    var P' := Hang(P, o, c);
    assert table[d] in S[..j + 1];
    forall y | y in L && y in P0 && y in P'
      ensures |P0[y]| > 0 && |P'[y]| > 0 && if P0[y][0] in S[..j + 1] then P'[y][0] in Held(t) + {c} else P'[y] == P0[y]
    {
      if P0[y][0] in S[..j + 1] {
        if P[y][0] != o && P[y][0] != c && P[y][0] in Held(table) {
          var k :| 0 <= k < |table| && table[k] != NIL && table[k] == P[y][0];
          assert k != d && t[k] == P[y][0];
        }
      } else {
        assert P0[y][0] != o;
      }
    }
  }

  lemma WalkLinkForest(ns0: seq<Node>, S: seq<int>, L: set<int>, P0: map<int, seq<int>>,
                       ns: seq<Node>, table: seq<int>, K: map<int, seq<int>>, P: map<int, seq<int>>,
                       j: int, cur: int, c: int, o: int)
    requires Shape(ns) && Carrying(ns0, S, L, P0, ns, table, K, P, j, cur) && Meets(ns, table, cur, c, o)
    ensures IsAddr(ns, c) && IsAddr(ns, o) && c in K && c != o
    ensures c in S[..j + 1] && o in S[..j + 1] && c in L && Link(ns, c, o)[c].parent == NIL
    ensures ForestOk(Link(ns, c, o), L, K[c := K[c] + [o]], Hang(P, o, c))
    ensures Link(ns, c, o)[c].degree == ns[cur].degree + 1
  {
    var d := ns[cur].degree;
    assert table[d] in L && table[d] in S[..j + 1] && ns[table[d]].degree == d;
    assert LiveOk(ns, L, K, P, c);
    LinkForest(ns, L, K, P, c, o);
  }

  /** The weight carried stays the same across a link. */
  lemma WalkLinkWeight(ns: seq<Node>, table: seq<int>, cur: int, c: int, o: int, w: nat)
    requires Shape(ns) && 0 <= cur < |ns| && TableOk(ns, table) && Meets(ns, table, cur, c, o)
    requires TableWeight(table) + Pow2(ns[cur].degree) == w
    ensures IsAddr(ns, c) && IsAddr(ns, o)
    ensures TableWeight(table[ns[cur].degree := NIL]) + Pow2(Link(ns, c, o)[c].degree) == w
  {
    var d := ns[cur].degree;
    assert IsAddr(ns, table[d]) && ns[table[d]].degree == d;
    assert Link(ns, c, o)[c].degree == d + 1;
    CarryWeight(table, d, w);
  }

  /** Lines 120-141, one link: `cur` meets the root `other` of the same
      degree held in the table; the smaller value (`cur` on a tie) becomes
      the parent `c`, the other root `o` its last child, and `c` is carried
      on with one more child while the slot is cleared. */
  lemma WalkLink(ns0: seq<Node>, S: seq<int>, L: set<int>, P0: map<int, seq<int>>,
                 ns: seq<Node>, table: seq<int>, K: map<int, seq<int>>, P: map<int, seq<int>>,
                 j: int, cur: int, c: int, o: int)
    requires Shape(ns) && Carrying(ns0, S, L, P0, ns, table, K, P, j, cur) && Meets(ns, table, cur, c, o)
    ensures IsAddr(ns, c) && IsAddr(ns, o) && c in K
    ensures Carrying(ns0, S, L, P0, Link(ns, c, o), table[ns[cur].degree := NIL],
                     K[c := K[c] + [o]], Hang(P, o, c), j, c)
    ensures Link(ns, c, o)[c].degree == ns[cur].degree + 1
  {
    var d := ns[cur].degree;
    WalkLinkForest(ns0, S, L, P0, ns, table, K, P, j, cur, c, o);
    var r, t, K', P' := Link(ns, c, o), table[d := NIL], K[c := K[c] + [o]], Hang(P, o, c);
    assert TableOk(r, t) && forall k | 0 <= k < |t| && t[k] != NIL ::
        t[k] in L && r[t[k]].parent == NIL && t[k] in S[..j + 1] && t[k] != c
    by {
      WalkLinkTable(ns0, S, L, P0, ns, table, K, P, j, cur, c, o);
    }
    assert forall k | j < k < |S| :: r[S[k]] == ns0[S[k]] by {
      WalkLinkUntouched(ns0, S, L, P0, ns, table, K, P, j, cur, c, o);
    }
    assert Hung(L, P0, P', S[..j + 1], Held(t) + {c}) by {
      WalkLinkPaths(ns0, S, L, P0, ns, table, K, P, j, cur, c, o);
    }
    assert TableWeight(t) + Pow2(r[c].degree) == Weight(ns0, S[..j + 1]) by {
      WalkLinkWeight(ns, table, cur, c, o, Weight(ns0, S[..j + 1]));
    }
    CarryingIntro(ns0, S, L, P0, r, t, K', P', j, c);
  }

  /** `Carrying`, conjunct by conjunct. */
  lemma CarryingIntro(ns0: seq<Node>, S: seq<int>, L: set<int>, P0: map<int, seq<int>>,
                      ns: seq<Node>, table: seq<int>, K: map<int, seq<int>>, P: map<int, seq<int>>,
                      j: int, cur: int)
    requires Distinct(S) && RootsOf(ns0, S, L) && 0 <= j < |S| && |ns| == |ns0|
    requires ForestOk(ns, L, K, P) && TableOk(ns, table)
    requires cur in L && 0 <= cur < |ns| && ns[cur].parent == NIL && cur in S[..j + 1]
    requires forall k | 0 <= k < |table| && table[k] != NIL ::
      table[k] in L && ns[table[k]].parent == NIL && table[k] in S[..j + 1] && table[k] != cur
    requires forall k | j < k < |S| :: ns[S[k]] == ns0[S[k]]
    requires Hung(L, P0, P, S[..j + 1], Held(table) + {cur})
    requires TableWeight(table) + Pow2(ns[cur].degree) == Weight(ns0, S[..j + 1])
    ensures Carrying(ns0, S, L, P0, ns, table, K, P, j, cur)
  {
  }
}
