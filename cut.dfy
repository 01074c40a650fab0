/** What the loop of `Update` (lines 177-205) can rely on in a valid heap:
    the chain of parents above a live node is the path from its tree's
    root, and lowering a root's value keeps the heap valid. */
module Cuts {
  import opened Nodes
  import opened Forest

  /** `A` runs from a parentless node down a chain of `parent` links, and
      none but its first member is in the ring `R`. */
  ghost predicate Ancestry(ns: seq<Node>, A: seq<int>, R: seq<int>)
  {
    && |A| > 0 && Distinct(A)
    && (forall i | 0 <= i < |A| :: 0 <= A[i] < |ns|)
    && ns[A[0]].parent == NIL
    && (forall i | 0 < i < |A| :: ns[A[i]].parent == A[i - 1])
    && (forall i, j | 0 < i < |A| && 0 <= j < |R| :: A[i] != R[j])
  }

  /** The path of a live node, read upwards, is its chain of parents; it
      is made of live nodes, whose own paths are its prefixes. */
  lemma {:induction false} PathPrefixes(ns: seq<Node>, L: set<int>, K: map<int, seq<int>>, P: map<int, seq<int>>, x: int)
    requires ForestOk(ns, L, K, P) && x in L
    ensures x in P && |P[x]| > 0 && P[x][|P[x]| - 1] == x
    ensures forall i | 0 <= i < |P[x]| :: P[x][i] in L && P[x][i] in P && P[P[x][i]] == P[x][..i + 1]
    ensures forall i | 0 <= i < |P[x]| :: 0 <= P[x][i] < |ns|
    ensures ns[P[x][0]].parent == NIL
    ensures forall i | 0 < i < |P[x]| :: ns[P[x][i]].parent == P[x][i - 1]
    decreases if x in P then |P[x]| else 0
  {
    assert LiveOk(ns, L, K, P, x);
    var p := ns[x].parent;
    if p == NIL {
      assert P[x][..1] == P[x];
    } else {
      assert LiveOk(ns, L, K, P, p);
      PathPrefixes(ns, L, K, P, p);
      var A := P[x];
      assert A == P[p] + [x];
      forall i | 0 <= i < |A| ensures A[i] in L && A[i] in P && P[A[i]] == A[..i + 1] {
        if i < |P[p]| {
          assert A[i] == P[p][i] && A[..i + 1] == P[p][..i + 1];
        } else {
          assert A[..i + 1] == A;
        }
      }
    }
  }

  /** On a valid heap the path of a live node is an `Ancestry` that the
      root ring meets only at its first member. */
  lemma PathAncestry(ns: seq<Node>, roots: int, min: int, degree: nat, R: seq<int>,
                     L: set<int>, K: map<int, seq<int>>, P: map<int, seq<int>>, x: int)
    requires ForestOk(ns, L, K, P) && RootRingOk(ns, roots, min, degree, R, L) && x in L
    ensures x in P && |P[x]| > 0 && P[x][|P[x]| - 1] == x && Ancestry(ns, P[x], R)
    ensures forall i | 0 <= i < |P[x]| :: P[x][i] in L
  {
    PathPrefixes(ns, L, K, P, x);
    var A := P[x];
    forall i, j | 0 <= i < j < |A| ensures A[i] != A[j] {
      assert |P[A[i]]| == i + 1 && |P[A[j]]| == j + 1;
    }
    forall i, j | 0 < i < |A| && 0 <= j < |R| ensures A[i] != R[j] {
      assert ns[R[j]].parent == NIL && 0 <= A[i - 1];
    }
  }

  /** Lines 174-184 on a root: a valid heap whose root `x` gets a value
      no larger stays valid, with `x` the minimum when strictly below it. */
  lemma RootDecrease(ns: seq<Node>, roots: int, min: int, degree: nat, R: seq<int>,
                     L: set<int>, K: map<int, seq<int>>, P: map<int, seq<int>>, x: int, v: int)
    requires ForestOk(ns, L, K, P) && RootRingOk(ns, roots, min, degree, R, L)
    requires x in L && 0 <= x < |ns| && ns[x].parent == NIL && v <= ns[x].value
    ensures var ns' := ns[x := ns[x].(value := v)];
      && ForestOk(ns', L, K, P)
      && RootRingOk(ns', roots, if v < ns'[min].value then x else min, degree, R, L)
  {
    var ns' := ns[x := ns[x].(value := v)];
    forall y | y in L ensures LiveOk(ns', L, K, P, y) {
      assert LiveOk(ns, L, K, P, y);
      RingFrame(ns, ns', K[y]);
    }
    RingFrame(ns, ns', R);
    assert x in R;
    assert degree > 0 by { var i :| 0 <= i < |R| && R[i] == x; }
  }

  /** Lines 187-188: `c` forgets its parent, and the degree counter of
      `p` drops by one as a `std::size_t` does. */
  ghost function CutFrom(ns: seq<Node>, c: int, p: int): (r: seq<Node>)
    requires Shape(ns) && IsAddr(ns, c) && Cuttable(ns, p)
    ensures |r| == |ns| && Shape(r)
  {
    assert NodeShape(ns, c);
    ShapeUpdate(ns, c, ns[c].(parent := NIL));
    var r := ns[c := ns[c].(parent := NIL)];
    assert NodeShape(r, p);
    ShapeUpdate(r, p, r[p].(degree := SizeDec(r[p].degree)));
    r[p := r[p].(degree := SizeDec(r[p].degree))]
  }

  /** Lines 195-204: `p` is spliced into the ring before `roots` and
      unmarked. */
  ghost function LiftTo(ns: seq<Node>, roots: int, p: int): (r: seq<Node>)
    requires Shape(ns) && IsAddr(ns, roots) && IsAddr(ns, p)
    ensures |r| == |ns| && Shape(r)
  {
    var s := SpliceBefore(ns, roots, p);
    assert NodeShape(s, p);
    ShapeUpdate(s, p, s[p].(marked := false));
    s[p := s[p].(marked := false)]
  }

  /** `p` is a node whose children pointer is a node too, as a parent's
      is: its counter can be lowered. */
  ghost predicate Cuttable(ns: seq<Node>, p: int)
  {
    IsAddr(ns, p) && IsAddr(ns, ns[p].children)
  }

  /** The node the walk from `node` has reached after lifting `lifted`. */
  function Last(node: int, lifted: seq<int>): int
  {
    ([node] + lifted)[|lifted|]
  }

  /** What `Lifts` needs of the arena `ns` it starts from. */
  ghost predicate LiftsOk(ns: seq<Node>, roots: int, node: int, lifted: seq<int>)
  {
    && Shape(ns) && IsAddr(ns, roots) && IsAddr(ns, node)
    && forall k | 0 <= k < |lifted| :: Cuttable(ns, lifted[k])
  }

  /** The arena after the loop of lines 177-205, started at `node` on the
      arena `ns`, has gone on through one round per member of `lifted`:
      each round cuts the node reached from its parent, the next member,
      then splices that parent in before `roots` and unmarks it. */
  ghost function Lifts(ns: seq<Node>, roots: int, node: int, lifted: seq<int>): (r: seq<Node>)
    requires LiftsOk(ns, roots, node, lifted)
    ensures |r| == |ns| && Shape(r)
    ensures forall x {:trigger r[x]} | 0 <= x < |ns| :: r[x].children == ns[x].children
    decreases |lifted|, 1
  {
    if lifted == [] then ns else LastLift(ns, roots, node, lifted)
  }

  /** `Lifts` with at least one round: the rounds before the last, then
      the last one, which lifts the last member of `lifted`. */
  ghost function LastLift(ns: seq<Node>, roots: int, node: int, lifted: seq<int>): (r: seq<Node>)
    requires LiftsOk(ns, roots, node, lifted) && lifted != []
    ensures |r| == |ns| && Shape(r)
    ensures forall x {:trigger r[x]} | 0 <= x < |ns| :: r[x].children == ns[x].children
    decreases |lifted|, 0
  {
    var front, p := lifted[..|lifted| - 1], lifted[|lifted| - 1];
    assert forall k | 0 <= k < |front| :: front[k] == lifted[k];
    var r := Lifts(ns, roots, node, front);
    var c := Last(node, front);
    assert Cuttable(ns, p) && IsAddr(r, c) && Cuttable(r, p);
    LiftTo(CutFrom(r, c, p), roots, p)
  }

  /** Each member of `lifted` is the parent the loop found (line 182):
      the parent, in the arena the earlier rounds left, of the node those
      rounds reached. */
  ghost predicate ParentChain(ns: seq<Node>, roots: int, node: int, lifted: seq<int>)
    requires LiftsOk(ns, roots, node, lifted)
    decreases |lifted|
  {
    lifted == [] ||
      var front := lifted[..|lifted| - 1];
      assert forall k | 0 <= k < |front| :: front[k] == lifted[k];
      var r := Lifts(ns, roots, node, front);
      assert IsAddr(r, Last(node, front));
      && ParentChain(ns, roots, node, front)
      && r[Last(node, front)].parent == lifted[|lifted| - 1]
  }

  /** The walk goes on from the parent of the node reached. */
  lemma ParentChainSnoc(ns: seq<Node>, roots: int, node: int, lifted: seq<int>, p: int)
    requires LiftsOk(ns, roots, node, lifted) && ParentChain(ns, roots, node, lifted) && Cuttable(ns, p)
    requires Lifts(ns, roots, node, lifted)[Last(node, lifted)].parent == p
    ensures LiftsOk(ns, roots, node, lifted + [p]) && ParentChain(ns, roots, node, lifted + [p])
  {
    LiftsSnoc(ns, roots, node, lifted, p);
    assert (lifted + [p])[..|lifted|] == lifted;
  }

  /** `ParentChain` round by round: the prefix `lifted[..k]` is a chain too,
      and `lifted[k]` is the parent of the node it reaches. */
  lemma {:induction false} ParentChainPrefix(ns: seq<Node>, roots: int, node: int, lifted: seq<int>, k: nat)
    requires LiftsOk(ns, roots, node, lifted) && ParentChain(ns, roots, node, lifted) && k < |lifted|
    ensures LiftsOk(ns, roots, node, lifted[..k]) && ParentChain(ns, roots, node, lifted[..k])
    ensures IsAddr(Lifts(ns, roots, node, lifted[..k]), Last(node, lifted[..k]))
    ensures Lifts(ns, roots, node, lifted[..k])[Last(node, lifted[..k])].parent == lifted[k]
    decreases |lifted|
  {
    var front := lifted[..|lifted| - 1];
    assert forall j | 0 <= j < |front| :: front[j] == lifted[j];
    if k < |lifted| - 1 {
      ParentChainPrefix(ns, roots, node, front, k);
      assert front[..k] == lifted[..k];
    }
  }

  /** The arena when the loop ends at `stop`: after the rounds of
      `Lifts`, either the node reached had no parent (`stop` is NIL) or it
      was cut from `stop`, which was then marked (lines 190-192). */
  ghost function Final(ns: seq<Node>, roots: int, node: int, lifted: seq<int>, stop: int): (r: seq<Node>)
    requires LiftsOk(ns, roots, node, lifted) && (stop == NIL || Cuttable(ns, stop))
    ensures |r| == |ns|
  {
    var r := Lifts(ns, roots, node, lifted);
    if stop == NIL then r
    else
      assert IsAddr(r, Last(node, lifted)) && Cuttable(r, stop);
      var r' := CutFrom(r, Last(node, lifted), stop);
      r'[stop := r'[stop].(marked := true)]
  }

  /** Every member of `lifted` is lifted once and was marked in `ns`. */
  ghost predicate MarkedOnce(ns: seq<Node>, lifted: seq<int>)
  {
    && Distinct(lifted)
    && forall k | 0 <= k < |lifted| :: 0 <= lifted[k] < |ns| && ns[lifted[k]].marked
  }

  /** Why the loop stopped at `stop`: the node it reached has `stop` as
      parent, and `stop` is NIL (line 184) or unmarked (lines 190-192). */
  ghost predicate LoopExit(ns: seq<Node>, roots: int, node: int, lifted: seq<int>, stop: int)
    requires LiftsOk(ns, roots, node, lifted)
  {
    var r, c := Lifts(ns, roots, node, lifted), Last(node, lifted);
    && 0 <= c < |r| && r[c].parent == stop
    && (stop != NIL ==> 0 <= stop < |r| && !r[stop].marked)
  }

  /** Lifting one more marked node. */
  lemma MarkedSnoc(ns: seq<Node>, lifted: seq<int>, p: int)
    requires MarkedOnce(ns, lifted) && 0 <= p < |ns| && ns[p].marked && p !in lifted
    ensures MarkedOnce(ns, lifted + [p])
  {
    DistinctSnoc(lifted, p);
    forall k | 0 <= k < |lifted| + 1 ensures 0 <= (lifted + [p])[k] < |ns| && ns[(lifted + [p])[k]].marked {
      if k < |lifted| { assert (lifted + [p])[k] == lifted[k]; }
    }
  }

  /** One more round of `Lifts`, lifting `p`. */
  lemma LiftsSnoc(ns: seq<Node>, roots: int, node: int, lifted: seq<int>, p: int)
    requires LiftsOk(ns, roots, node, lifted) && Cuttable(ns, p)
    ensures LiftsOk(ns, roots, node, lifted + [p]) && Last(node, lifted + [p]) == p
    ensures var r := Lifts(ns, roots, node, lifted);
      && IsAddr(r, Last(node, lifted)) && Cuttable(r, p)
      && Lifts(ns, roots, node, lifted + [p]) == LiftTo(CutFrom(r, Last(node, lifted), p), roots, p)
  {
    var lifted' := lifted + [p];
    assert lifted'[..|lifted|] == lifted;
    forall k | 0 <= k < |lifted'| ensures Cuttable(ns, lifted'[k]) {
      if k < |lifted| { assert lifted'[k] == lifted[k]; }
    }
  }

  /** The arena `ns` after lines 197-201 spliced each of `hs`, in order,
      into the ring before `at`. */
  ghost function SpliceAll(ns: seq<Node>, at: int, hs: seq<int>): (r: seq<Node>)
    requires Shape(ns) && IsAddr(ns, at) && forall k | 0 <= k < |hs| :: IsAddr(ns, hs[k])
    ensures |r| == |ns| && Shape(r) && LinksOnly(ns, r)
    ensures hs != [] ==> r[at].prev == hs[|hs| - 1]
    decreases |hs|
  {
    if hs == [] then ns
    else
      var front, h := hs[..|hs| - 1], hs[|hs| - 1];
      assert forall k | 0 <= k < |front| :: front[k] == hs[k];
      var r := SpliceAll(ns, at, front);
      assert IsAddr(ns, h);
      assert |r| == |ns|;
      assert IsAddr(r, at) && IsAddr(r, h);
      LinksOnlyTrans(ns, r, SpliceBefore(r, at, h));
      SpliceBefore(r, at, h)
  }

  /** The arena `ns` after line 188 lowered the degree counter of each of
      `ps`, in order, as a `size_t`. */
  ghost function LowerAll(ns: seq<Node>, ps: seq<int>): (r: seq<Node>)
    requires forall k | 0 <= k < |ps| :: 0 <= ps[k] < |ns|
    ensures |r| == |ns|
    ensures forall x | 0 <= x < |ns| && x !in ps :: r[x].degree == ns[x].degree
    decreases |ps|
  {
    if ps == [] then ns
    else
      var front, p := ps[..|ps| - 1], ps[|ps| - 1];
      assert forall k | 0 <= k < |front| :: front[k] == ps[k];
      assert forall x | x !in ps :: x !in front;
      var r := LowerAll(ns, front);
      r[p := r[p].(degree := SizeDec(r[p].degree))]
  }

  /** Lowering one more counter, at `p`. */
  lemma LowerSnoc(ns: seq<Node>, ps: seq<int>, p: int)
    requires forall k | 0 <= k < |ps| :: 0 <= ps[k] < |ns|
    requires 0 <= p < |ns|
    ensures var r := LowerAll(ns, ps);
      LowerAll(ns, ps + [p]) == r[p := r[p].(degree := SizeDec(r[p].degree))]
  {
    assert (ps + [p])[..|ps|] == ps;
  }

  /** The parents whose counters the loop has lowered: one per lifted
      node, and `lowered` when it is not NIL. */
  function Lowered(lifted: seq<int>, lowered: int): seq<int>
  {
    if lowered == NIL then lifted else lifted + [lowered]
  }

  /** The fields the loop of lines 177-205 has changed so far, against
      the arena `ns1` it started from. `lifted` lists the marked parents
      moved to the root ring, which were marked in `ns1` and are now
      unmarked; `marked` (or NIL) has been marked; the counters are those
      of `ns1` lowered once per cut, at each lifted node and at `lowered`
      (or NIL); `node` and `lifted` alone may have lost their parent.
      Unless `allCut`, the last node of `[node] + lifted` has not been
      cut yet. Values and children pointers never change. */
  ghost predicate CutFrame(ns1: seq<Node>, ns: seq<Node>, node: int, lifted: seq<int>,
                           marked: int, lowered: int, allCut: bool)
  {
    && |ns| == |ns1| && 0 <= node < |ns| && Distinct(lifted)
    && (forall k | 0 <= k < |lifted| :: 0 <= lifted[k] < |ns1| && ns1[lifted[k]].marked)
    && (lowered == NIL || 0 <= lowered < |ns1|)
    && CutFields(ns1, ns, node, lifted, marked, lowered)
    && (allCut || lifted != [] ==> ns[node].parent == NIL)
    && (forall k | 0 <= k < |lifted| && (allCut || k < |lifted| - 1) :: ns[lifted[k]].parent == NIL)
    && (!allCut && lifted == [] ==> ns[node].parent == ns1[node].parent)
    && (!allCut && lifted != [] && lifted[|lifted| - 1] != node ==>
          ns[lifted[|lifted| - 1]].parent == ns1[lifted[|lifted| - 1]].parent)
  }

  /** The per-node part of `CutFrame`. */
  ghost predicate CutFields(ns1: seq<Node>, ns: seq<Node>, node: int, lifted: seq<int>, marked: int, lowered: int)
    requires |ns| == |ns1|
    requires forall k | 0 <= k < |lifted| :: 0 <= lifted[k] < |ns1|
    requires lowered == NIL || 0 <= lowered < |ns1|
  {
    forall x | 0 <= x < |ns| ::
      && ns[x].value == ns1[x].value && ns[x].children == ns1[x].children
      && ns[x].marked == (x == marked || (ns1[x].marked && x !in lifted))
      && (x != node && x !in lifted ==> ns[x].parent == ns1[x].parent)
      && ns[x].degree == LowerAll(ns1, Lowered(lifted, lowered))[x].degree
  }

  /** The ring links the loop has changed so far: exactly those that
      splicing `lifted`, in order, before `roots` changes in `ns1`. */
  ghost predicate LinkFrame(ns1: seq<Node>, ns: seq<Node>, roots: int, lifted: seq<int>)
  {
    && |ns| == |ns1| && Shape(ns1) && IsAddr(ns1, roots)
    && (forall k | 0 <= k < |lifted| :: IsAddr(ns1, lifted[k]))
    && LinksAgree(SpliceAll(ns1, roots, lifted), ns)
  }

  /** `min` so far (lines 178-180): `min0`, `node` or a lifted node, at most
      `min0`'s value and strictly below it when it moved, and at most the
      value of every node compared: `node` and every lifted node but the
      last, and the last too once compared (`seen`). */
  ghost predicate MinSoFar(ns1: seq<Node>, min: int, min0: int, node: int, lifted: seq<int>, seen: bool)
  {
    && 0 <= min < |ns1| && 0 <= min0 < |ns1| && 0 <= node < |ns1|
    && (forall k | 0 <= k < |lifted| :: 0 <= lifted[k] < |ns1|)
    && (min == min0 || min == node || min in lifted)
    && ns1[min].value <= ns1[min0].value && (min != min0 ==> ns1[min].value < ns1[min0].value)
    && (seen || lifted != [] ==> ns1[min].value <= ns1[node].value)
    && (forall k | 0 <= k < |lifted| && (seen || k < |lifted| - 1) :: ns1[min].value <= ns1[lifted[k]].value)
    && min == MinAfter(ns1, min0, ComparedNodes(node, lifted, seen))
  }

  /** The nodes compared with `min` so far, in order: `node` and the
      lifted nodes, the last of them only once `seen`. */
  function ComparedNodes(node: int, lifted: seq<int>, seen: bool): seq<int>
  {
    if seen then [node] + lifted else ([node] + lifted)[..|lifted|]
  }

  /** Lines 178-180 applied to the nodes `cs` in order, starting from
      `min` = `m`: a node replaces `min` only when strictly below it. */
  ghost function MinAfter(ns: seq<Node>, m: int, cs: seq<int>): (r: int)
    requires 0 <= m < |ns| && forall k | 0 <= k < |cs| :: 0 <= cs[k] < |ns|
    ensures 0 <= r < |ns|
    decreases |cs|
  {
    if cs == [] then m
    else
      var front := cs[..|cs| - 1];
      assert forall k | 0 <= k < |front| :: front[k] == cs[k];
      var r := MinAfter(ns, m, front);
      var c := cs[|cs| - 1];
      if ns[c].value < ns[r].value then c else r
  }

  /** `MinAfter` picks the first node of `cs` holding the least value,
      when that value is strictly below `m`'s, and `m` otherwise. */
  lemma {:induction false} MinAfterFirst(ns: seq<Node>, m: int, cs: seq<int>)
    requires 0 <= m < |ns| && forall k | 0 <= k < |cs| :: 0 <= cs[k] < |ns|
    ensures var r := MinAfter(ns, m, cs);
      && ns[r].value <= ns[m].value && (forall k | 0 <= k < |cs| :: ns[r].value <= ns[cs[k]].value)
      && (r == m || exists i | 0 <= i < |cs| :: cs[i] == r && ns[r].value < ns[m].value
                                              && forall j | 0 <= j < i :: ns[r].value < ns[cs[j]].value)
    decreases |cs|
  {
    if cs != [] {
      var front := cs[..|cs| - 1];
      assert forall k | 0 <= k < |front| :: front[k] == cs[k];
      MinAfterFirst(ns, m, front);
      var r' := MinAfter(ns, m, front);
      var c := cs[|cs| - 1];
      var r := MinAfter(ns, m, cs);
      if ns[c].value < ns[r'].value {
        assert r == c;
        assert forall j | 0 <= j < |cs| - 1 :: ns[r].value < ns[cs[j]].value by {
          forall j | 0 <= j < |cs| - 1 ensures ns[r].value < ns[cs[j]].value { assert cs[j] == front[j]; }
        }
      } else {
        assert r == r';
        if r != m {
          var i :| 0 <= i < |front| && front[i] == r && ns[r].value < ns[m].value
                   && forall j | 0 <= j < i :: ns[r].value < ns[front[j]].value;
          assert cs[i] == r && forall j | 0 <= j < i :: cs[j] == front[j];
        }
      }
    }
  }

  /** On a valid heap, with `A` the path from `node`'s tree root down to
      `node`: the nodes lifted so far are the ones just above `node` on
      `A`, and each of them and `lowered` (or NIL) has had its degree
      counter lowered once. */
  ghost predicate UpPath(ns1: seq<Node>, ns: seq<Node>, A: seq<int>, lifted: seq<int>, lowered: int)
  {
    && |ns| == |ns1| && |lifted| < |A|
    && (forall k | 0 <= k < |lifted| :: lifted[k] == A[|A| - 2 - k])
    && (forall x | 0 <= x < |ns| && (x in lifted || x == lowered) :: ns[x].degree == SizeDec(ns1[x].degree))
  }

  /** Line 184 ends the loop at a node without a parent. */
  lemma EndFrame(ns1: seq<Node>, ns: seq<Node>, node: int, lifted: seq<int>)
    requires CutFrame(ns1, ns, node, lifted, NIL, NIL, false)
    requires 0 <= Last(node, lifted) < |ns| && ns[Last(node, lifted)].parent == NIL
    ensures CutFrame(ns1, ns, node, lifted, NIL, NIL, true)
  {
  }

  /** Lines 178-180: `current` becomes `min` when strictly below it. */
  lemma CompareMin(ns1: seq<Node>, min: int, min0: int, node: int, lifted: seq<int>, current: int)
    requires MinSoFar(ns1, min, min0, node, lifted, false)
    requires current == Last(node, lifted) && 0 <= current < |ns1|
    ensures MinSoFar(ns1, if ns1[current].value < ns1[min].value then current else min, min0, node, lifted, true)
  {
  }

  /** Lines 187-188 cut `c`, the last node of `[node] + lifted`, from its
      parent `p`, whose degree counter drops. */
  lemma CutFrameStep(ns1: seq<Node>, ns: seq<Node>, node: int, lifted: seq<int>, c: int, p: int)
    requires CutFrame(ns1, ns, node, lifted, NIL, NIL, false)
    requires c == ([node] + lifted)[|lifted|] && 0 <= p < |ns|
    ensures 0 <= c < |ns|
    ensures var r := ns[c := ns[c].(parent := NIL)];
      CutFrame(ns1, r[p := r[p].(degree := SizeDec(r[p].degree))], node, lifted, NIL, p, true)
  {
    if lifted != [] {
      assert c == lifted[|lifted| - 1];
    }
    var r := ns[c := ns[c].(parent := NIL)];
    var r' := r[p := r[p].(degree := SizeDec(r[p].degree))];
    CutFieldsStep(ns1, ns, node, lifted, c, p);
  }

  /** The per-node part of `CutFrameStep`. */
  lemma CutFieldsStep(ns1: seq<Node>, ns: seq<Node>, node: int, lifted: seq<int>, c: int, p: int)
    requires |ns| == |ns1| && forall k | 0 <= k < |lifted| :: 0 <= lifted[k] < |ns1|
    requires CutFields(ns1, ns, node, lifted, NIL, NIL)
    requires c == ([node] + lifted)[|lifted|] && 0 <= c < |ns| && 0 <= p < |ns|
    ensures var r := ns[c := ns[c].(parent := NIL)];
      CutFields(ns1, r[p := r[p].(degree := SizeDec(r[p].degree))], node, lifted, NIL, p)
  {
    var r := ns[c := ns[c].(parent := NIL)];
    var r' := r[p := r[p].(degree := SizeDec(r[p].degree))];
    LowerSnoc(ns1, lifted, p);
    var L0, L := LowerAll(ns1, lifted), LowerAll(ns1, lifted + [p]);
    assert Lowered(lifted, p) == lifted + [p] && Lowered(lifted, NIL) == lifted;
    if lifted != [] {
      assert c == lifted[|lifted| - 1];
    }
    forall x | 0 <= x < |ns|
      ensures && r'[x].value == ns1[x].value && r'[x].children == ns1[x].children
              && r'[x].marked == (ns1[x].marked && x !in lifted)
              && (x != node && x !in lifted ==> r'[x].parent == ns1[x].parent)
              && r'[x].degree == L[x].degree
    {
      assert ns[x].degree == L0[x].degree;
    }
  }

  /** On a valid heap, the parent `p` of the node reached is the next
      node up the path, neither lifted nor `node`. */
  lemma NextUp(ns1: seq<Node>, ns: seq<Node>, A: seq<int>, R: seq<int>, node: int, lifted: seq<int>, c: int, p: int)
    requires UpPath(ns1, ns, A, lifted, NIL)
    requires Ancestry(ns1, A, R) && A[|A| - 1] == node
    requires c == A[|A| - 1 - |lifted|] && 0 <= c < |ns| && ns[c].parent == ns1[c].parent
    requires ns[c].parent == p && p != NIL
    ensures |lifted| < |A| - 1 && p == A[|A| - 2 - |lifted|] && 0 <= p < |ns| && p !in lifted && p != node && p != c
  {
    var j := |A| - 1 - |lifted|;
    assert j > 0;
    assert p == A[j - 1];
    assert p !in lifted by {
      forall k | 0 <= k < |lifted| ensures lifted[k] != p {
        assert lifted[k] == A[|A| - 2 - k] && |A| - 2 - k != j - 1;
      }
    }
  }

  /** The cut at lines 187-188 on a valid heap, `p` being the node
      `NextUp` finds: the degree counter of `p`, untouched so far, drops
      once, and the ring is kept. */
  lemma CutUpStep(ns1: seq<Node>, ns: seq<Node>, A: seq<int>, lifted: seq<int>, c: int, p: int)
    requires UpPath(ns1, ns, A, lifted, NIL)
    requires 0 <= c < |ns| && 0 <= p < |ns| && p != c && p !in lifted && ns[p].degree == ns1[p].degree
    ensures var r := ns[c := ns[c].(parent := NIL)];
      var r' := r[p := r[p].(degree := SizeDec(r[p].degree))];
      UpPath(ns1, r', A, lifted, p) && r'[p].parent == ns[p].parent
  {
  }

  /** Lines 190-192: the unmarked parent `p` is marked. */
  lemma StopFrame(ns1: seq<Node>, ns: seq<Node>, node: int, lifted: seq<int>, p: int)
    requires CutFrame(ns1, ns, node, lifted, NIL, p, true) && 0 <= p < |ns| && !ns[p].marked
    ensures CutFrame(ns1, ns[p := ns[p].(marked := true)], node, lifted, p, p, true)
  {
  }

  /** Lines 190-192 on a valid heap: marking `p` changes no link and no
      degree counter. */
  lemma StopUp(ns1: seq<Node>, ns: seq<Node>, A: seq<int>, lifted: seq<int>, p: int)
    requires UpPath(ns1, ns, A, lifted, p) && 0 <= p < |ns|
    ensures UpPath(ns1, ns[p := ns[p].(marked := true)], A, lifted, p)
  {
  }

  /** Lines 195-204: the marked parent `p` is spliced in before `roots`
      and unmarked; it joins `lifted`. */
  lemma LiftFrame(ns1: seq<Node>, ns: seq<Node>, node: int, lifted: seq<int>, p: int, roots: int)
    requires Shape(ns) && CutFrame(ns1, ns, node, lifted, NIL, p, true)
    requires 0 <= p < |ns| && ns[p].marked && 0 <= roots < |ns|
    ensures p !in lifted && 0 <= p < |ns1| && ns1[p].marked
    ensures var r := SpliceBefore(ns, roots, p);
      CutFrame(ns1, r[p := r[p].(marked := false)], node, lifted + [p], NIL, NIL, false)
  {
    LiftFields(ns1, ns, node, lifted, p, roots);
    MarkedSnoc(ns1, lifted, p);
    LiftParents(ns, node, lifted, p, roots);
  }

  /** The parent part of `LiftFrame`: the splice keeps every parent, so
      `node` and the nodes lifted before `p` stay parentless. */
  lemma LiftParents(ns: seq<Node>, node: int, lifted: seq<int>, p: int, roots: int)
    requires Shape(ns) && 0 <= p < |ns| && 0 <= roots < |ns| && 0 <= node < |ns|
    requires ns[node].parent == NIL && forall k | 0 <= k < |lifted| :: 0 <= lifted[k] < |ns| && ns[lifted[k]].parent == NIL
    ensures var r := SpliceBefore(ns, roots, p);
      var r', lifted' := r[p := r[p].(marked := false)], lifted + [p];
      && r'[node].parent == NIL && r'[p].parent == ns[p].parent
      && forall k | 0 <= k < |lifted'| - 1 :: r'[lifted'[k]].parent == NIL
  {
    var r := SpliceBefore(ns, roots, p);
    var r', lifted' := r[p := r[p].(marked := false)], lifted + [p];
    forall k | 0 <= k < |lifted'| - 1 ensures r'[lifted'[k]].parent == NIL {
      assert lifted'[k] == lifted[k];
    }
  }

  /** The per-node part of `LiftFrame`. */
  lemma LiftFields(ns1: seq<Node>, ns: seq<Node>, node: int, lifted: seq<int>, p: int, roots: int)
    requires Shape(ns) && CutFrame(ns1, ns, node, lifted, NIL, p, true)
    requires 0 <= p < |ns| && ns[p].marked && 0 <= roots < |ns|
    ensures p !in lifted
    ensures var r := SpliceBefore(ns, roots, p);
      CutFields(ns1, r[p := r[p].(marked := false)], node, lifted + [p], NIL, NIL)
  {
    var lifted' := lifted + [p];
    var r := SpliceBefore(ns, roots, p);
    var r' := r[p := r[p].(marked := false)];
    assert Lowered(lifted', NIL) == Lowered(lifted, p);
    assert p !in lifted;
    forall x | 0 <= x < |r'|
      ensures && r'[x].value == ns1[x].value && r'[x].children == ns1[x].children
              && r'[x].marked == (ns1[x].marked && x !in lifted')
              && (x != node && x !in lifted' ==> r'[x].parent == ns1[x].parent)
              && r'[x].degree == LowerAll(ns1, Lowered(lifted', NIL))[x].degree
    {
      assert r'[x].degree == ns[x].degree && r'[x].parent == ns[x].parent;
    }
  }

  /** Lines 195-201: splicing `p` in before `roots` moves it into the
      links the loop has changed. */
  lemma LiftLinks(ns1: seq<Node>, ns: seq<Node>, roots: int, lifted: seq<int>, p: int)
    requires Shape(ns) && LinkFrame(ns1, ns, roots, lifted) && 0 <= p < |ns|
    ensures var r := SpliceBefore(ns, roots, p);
      LinkFrame(ns1, r[p := r[p].(marked := false)], roots, lifted + [p])
  {
    var lifted' := lifted + [p];
    assert lifted'[..|lifted|] == lifted;
    var S := SpliceAll(ns1, roots, lifted);
    SpliceAgrees(S, ns, roots, p);
  }

  /** Lines 195-204 on a valid heap: `p`, the next node up the path, is
      lifted; its counter, lowered by the cut, is kept. */
  lemma LiftUp(ns1: seq<Node>, ns: seq<Node>, A: seq<int>, lifted: seq<int>, p: int, roots: int)
    requires Shape(ns) && UpPath(ns1, ns, A, lifted, p) && IsAddr(ns, roots)
    requires |lifted| < |A| - 1 && p == A[|A| - 2 - |lifted|] && 0 <= p < |ns|
    ensures var r := SpliceBefore(ns, roots, p);
      var r' := r[p := r[p].(marked := false)];
      UpPath(ns1, r', A, lifted + [p], NIL) && r'[p].parent == ns[p].parent
  {
  }

  /** A step that keeps every ring link keeps `LinkFrame`. */
  lemma LinkKeep(ns1: seq<Node>, ns: seq<Node>, ns': seq<Node>, roots: int, lifted: seq<int>)
    requires LinkFrame(ns1, ns, roots, lifted) && |ns'| == |ns|
    requires forall x | 0 <= x < |ns| :: ns'[x].prev == ns[x].prev && ns'[x].next == ns[x].next
    ensures LinkFrame(ns1, ns', roots, lifted)
  {
  }

  /** Lifting `p` keeps `MinSoFar` once `min` was compared this round. */
  lemma MinLift(ns1: seq<Node>, min: int, min0: int, node: int, lifted: seq<int>, p: int)
    requires MinSoFar(ns1, min, min0, node, lifted, true) && 0 <= p < |ns1|
    ensures MinSoFar(ns1, min, min0, node, lifted + [p], false)
  {
    forall k | 0 <= k < |lifted| + 1 && k < |lifted| ensures ns1[min].value <= ns1[(lifted + [p])[k]].value {
      assert (lifted + [p])[k] == lifted[k];
    }
    assert ComparedNodes(node, lifted + [p], false) == ComparedNodes(node, lifted, true);
  }

  /** Lines 195-204 as one more round: the marked parent `p` of the node
      reached becomes the next lifted node, keeping what holds of the
      rounds so far. */
  lemma LiftStep(ns1: seq<Node>, roots: int, node: int, lifted: seq<int>, p: int, min: int, min0: int)
    requires LiftsOk(ns1, roots, node, lifted) && MarkedOnce(ns1, lifted) && ParentChain(ns1, roots, node, lifted)
    requires MinSoFar(ns1, min, min0, node, lifted, true) && Cuttable(ns1, p)
    requires Lifts(ns1, roots, node, lifted)[Last(node, lifted)].parent == p
    requires Lifts(ns1, roots, node, lifted)[p].marked
    ensures p in Marked(ns1) && p !in lifted && Last(node, lifted + [p]) == p
    ensures LiftsOk(ns1, roots, node, lifted + [p]) && MarkedOnce(ns1, lifted + [p])
    ensures ParentChain(ns1, roots, node, lifted + [p]) && MinSoFar(ns1, min, min0, node, lifted + [p], false)
    ensures var r := Lifts(ns1, roots, node, lifted);
      Lifts(ns1, roots, node, lifted + [p]) == LiftTo(CutFrom(r, Last(node, lifted), p), roots, p)
  {
    LiftsAt(ns1, roots, node, lifted, p);
    ParentChainSnoc(ns1, roots, node, lifted, p);
    LiftsSnoc(ns1, roots, node, lifted, p);
    MarkedSnoc(ns1, lifted, p);
    MinLift(ns1, min, min0, node, lifted, p);
  }

  /** `ns` is the arena the loop leaves when it stops at `stop`, for the
      reason `LoopExit` gives. */
  ghost predicate Exited(ns1: seq<Node>, ns: seq<Node>, roots: int, node: int, lifted: seq<int>, stop: int)
  {
    && LiftsOk(ns1, roots, node, lifted) && MarkedOnce(ns1, lifted) && ParentChain(ns1, roots, node, lifted)
    && (stop == NIL || Cuttable(ns1, stop)) && LoopExit(ns1, roots, node, lifted, stop)
    && ns == Final(ns1, roots, node, lifted, stop)
  }

  /** Two parent chains from the same node in the same arena agree as far
      as both go. */
  lemma {:induction false} ChainsAgree(ns: seq<Node>, roots: int, node: int, a: seq<int>, b: seq<int>, m: nat)
    requires LiftsOk(ns, roots, node, a) && ParentChain(ns, roots, node, a)
    requires LiftsOk(ns, roots, node, b) && ParentChain(ns, roots, node, b)
    requires m <= |a| && m <= |b|
    ensures a[..m] == b[..m]
    decreases m
  {
    if m > 0 {
      ChainsAgree(ns, roots, node, a, b, m - 1);
      ParentChainPrefix(ns, roots, node, a, m - 1);
      ParentChainPrefix(ns, roots, node, b, m - 1);
      assert a[..m] == a[..m - 1] + [a[m - 1]] && b[..m] == b[..m - 1] + [b[m - 1]];
    }
  }

  /** A longer chain of marked parents than `a` goes on from the node
      the rounds of `a` reach: its next member is that node's parent and
      is still marked, so the loop cannot stop there. */
  lemma ChainGoesOn(ns1: seq<Node>, roots: int, node: int, a: seq<int>, b: seq<int>, p: int)
    requires LiftsOk(ns1, roots, node, a) && MarkedOnce(ns1, a) && ParentChain(ns1, roots, node, a)
    requires IsAddr(ns1, Last(node, a)) && Lifts(ns1, roots, node, a)[Last(node, a)].parent == p
    requires LiftsOk(ns1, roots, node, b) && MarkedOnce(ns1, b) && ParentChain(ns1, roots, node, b)
    requires |a| < |b|
    ensures p == b[|a|] && 0 <= p < |ns1| && Lifts(ns1, roots, node, a)[p].marked
  {
    ChainsAgree(ns1, roots, node, a, b, |a|);
    ParentChainPrefix(ns1, roots, node, b, |a|);
    assert b[..|a|] == a;
    var x := b[|a|];
    assert x !in a by {
      forall k | 0 <= k < |a| ensures a[k] != x { assert a[k] == b[k]; }
    }
    LiftsAt(ns1, roots, node, a, x);
  }

  /** The loop is deterministic: the arena it starts from fixes the nodes
      it lifts, where it stops and the arena it leaves. */
  lemma ExitedUnique(ns1: seq<Node>, ns: seq<Node>, ns': seq<Node>, roots: int, node: int,
                     a: seq<int>, stop: int, b: seq<int>, stop': int)
    requires Exited(ns1, ns, roots, node, a, stop) && Exited(ns1, ns', roots, node, b, stop')
    ensures a == b && stop == stop' && ns == ns'
  {
    if |a| < |b| {
      ChainGoesOn(ns1, roots, node, a, b, stop);
      assert false;
    } else if |b| < |a| {
      ChainGoesOn(ns1, roots, node, b, a, stop');
      assert false;
    } else {
      ChainsAgree(ns1, roots, node, a, b, |a|);
      assert a == a[..|a|] && b == b[..|b|];
    }
  }

  /** Field by field, in any arena, the rounds of `Lifts` leave values,
      children pointers and untouched parents as they were, unmark the
      lifted nodes and lower each lifted node's counter once. */
  lemma {:induction false} LiftsFrame(ns1: seq<Node>, roots: int, node: int, lifted: seq<int>)
    requires LiftsOk(ns1, roots, node, lifted) && MarkedOnce(ns1, lifted)
    ensures CutFrame(ns1, Lifts(ns1, roots, node, lifted), node, lifted, NIL, NIL, false)
    decreases |lifted|
  {
    if lifted != [] {
      var front, p := lifted[..|lifted| - 1], lifted[|lifted| - 1];
      assert front + [p] == lifted;
      assert forall k | 0 <= k < |front| :: front[k] == lifted[k];
      assert p !in front by {
        forall k | 0 <= k < |front| ensures front[k] != p {
          assert lifted[k] != lifted[|lifted| - 1];
        }
      }
      LiftsFrame(ns1, roots, node, front);
      var L := Lifts(ns1, roots, node, front);
      var c := Last(node, front);
      CutFrameStep(ns1, L, node, front, c, p);
      assert Cuttable(L, p);
      var C := CutFrom(L, c, p);
      LiftFrame(ns1, C, node, front, p, roots);
      LiftsSnoc(ns1, roots, node, front, p);
    }
  }

  /** In any arena, the rounds of `Lifts` change the ring links exactly
      as splicing the lifted nodes, in order, before `roots` does. */
  lemma {:induction false} LiftsLinks(ns1: seq<Node>, roots: int, node: int, lifted: seq<int>)
    requires LiftsOk(ns1, roots, node, lifted)
    ensures LinkFrame(ns1, Lifts(ns1, roots, node, lifted), roots, lifted)
    decreases |lifted|
  {
    if lifted != [] {
      var front, p := lifted[..|lifted| - 1], lifted[|lifted| - 1];
      assert front + [p] == lifted;
      assert forall k | 0 <= k < |front| :: front[k] == lifted[k];
      LiftsLinks(ns1, roots, node, front);
      var L := Lifts(ns1, roots, node, front);
      var c := Last(node, front);
      assert Cuttable(L, p) && IsAddr(L, c);
      var C := CutFrom(L, c, p);
      LinkKeep(ns1, L, C, roots, front);
      LiftLinks(ns1, C, roots, front, p);
      LiftsSnoc(ns1, roots, node, front, p);
    }
  }

  /** `LiftsFrame` node by node. */
  lemma LiftsAt(ns1: seq<Node>, roots: int, node: int, lifted: seq<int>, x: int)
    requires LiftsOk(ns1, roots, node, lifted) && MarkedOnce(ns1, lifted) && 0 <= x < |ns1|
    ensures var r := Lifts(ns1, roots, node, lifted);
      && r[x].value == ns1[x].value && r[x].marked == (ns1[x].marked && x !in lifted)
      && (x != node && x !in lifted ==> r[x].parent == ns1[x].parent)
      && (x !in lifted ==> r[x].degree == ns1[x].degree)
  {
    LiftsFrame(ns1, roots, node, lifted);
  }

  /** Field by field, in any arena, the loop's last round adds to
      `LiftsFrame`: the node reached has no parent now, and `stop`, when
      it is not NIL, has its counter lowered once more and is marked. */
  lemma FinalFrame(ns1: seq<Node>, ns: seq<Node>, roots: int, node: int, lifted: seq<int>, stop: int)
    requires Exited(ns1, ns, roots, node, lifted, stop)
    ensures CutFrame(ns1, ns, node, lifted, stop, stop, true)
    ensures LinkFrame(ns1, ns, roots, lifted)
  {
    LiftsFrame(ns1, roots, node, lifted);
    LiftsLinks(ns1, roots, node, lifted);
    var L := Lifts(ns1, roots, node, lifted);
    if stop == NIL {
      EndFrame(ns1, L, node, lifted);
    } else {
      var c := Last(node, lifted);
      CutFrameStep(ns1, L, node, lifted, c, stop);
      var C := CutFrom(L, c, stop);
      LinkKeep(ns1, L, C, roots, lifted);
      StopFrame(ns1, C, node, lifted, stop);
      LinkKeep(ns1, C, ns, roots, lifted);
    }
  }

  /** The loop at lines 177-205 moves nodes and counts, but stores no
      value: every node keeps the value it had after line 174. */
  lemma ExitedValues(ns1: seq<Node>, ns: seq<Node>, roots: int, node: int, lifted: seq<int>, stop: int)
    requires Exited(ns1, ns, roots, node, lifted, stop)
    ensures |ns| == |ns1| && forall x | 0 <= x < |ns| :: ns[x].value == ns1[x].value
  {
    FinalFrame(ns1, ns, roots, node, lifted, stop);
  }

  /** Line 184 on a valid heap: only the tree root of the path has no
      parent. */
  lemma AncestryTop(ns: seq<Node>, A: seq<int>, R: seq<int>)
    requires Ancestry(ns, A, R)
    ensures forall j | 0 <= j < |A| :: ns[A[j]].parent == NIL <==> j == 0
  {
    forall j | 0 < j < |A| ensures ns[A[j]].parent != NIL {
      assert ns[A[j]].parent == A[j - 1] && 0 <= A[j - 1];
    }
  }

  /** Lines 197-201, once per lifted node: splicing nodes outside the
      ring `R`, one after another, before its first member appends them
      to the ring in that order. */
  lemma {:induction false} SpliceAllRing(ns: seq<Node>, R: seq<int>, hs: seq<int>)
    requires Shape(ns) && Ring(ns, R) && |R| > 0 && Distinct(R + hs)
    requires forall k | 0 <= k < |hs| :: IsAddr(ns, hs[k])
    ensures Ring(SpliceAll(ns, R[0], hs), R + hs)
    decreases |hs|
  {
    if hs != [] {
      var front, h := hs[..|hs| - 1], hs[|hs| - 1];
      assert forall k | 0 <= k < |front| :: front[k] == hs[k];
      DistinctFront(R + hs);
      assert R + front == (R + hs)[..|R + hs| - 1] && R + front + [h] == R + hs;
      SpliceAllRing(ns, R, front);
      var r := SpliceAll(ns, R[0], front);
      SpliceBeforeRing(r, R + front, h);
    }
  }

  /** Dropping the last member of a sequence free of repeats. */
  lemma DistinctFront(s: seq<int>)
    requires Distinct(s) && |s| > 0
    ensures Distinct(s[..|s| - 1]) && s[|s| - 1] !in s[..|s| - 1]
  {
  }

  /** On a valid heap where the loop stopped below the tree root of
      `node`'s path `A`, the lifted nodes, none of them a root before,
      follow the old root ring `R` in the order they were lifted, and
      together they form the new root ring. */
  lemma ExitedRing(ns1: seq<Node>, ns: seq<Node>, roots: int, node: int, lifted: seq<int>, stop: int,
                   A: seq<int>, R: seq<int>)
    requires Exited(ns1, ns, roots, node, lifted, stop)
    requires Ring(ns1, R) && |R| > 0 && R[0] == roots && Ancestry(ns1, A, R)
    requires |lifted| < |A| - 1 && forall k | 0 <= k < |lifted| :: lifted[k] == A[|A| - 2 - k]
    ensures Ring(ns, R + lifted)
  {
    FinalFrame(ns1, ns, roots, node, lifted, stop);
    var s := R + lifted;
    forall i, j | 0 <= i < j < |s| ensures s[i] != s[j] {
      if j >= |R| {
        assert s[j] == A[|A| - 2 - (j - |R|)];
        if i >= |R| {
          assert s[i] == A[|A| - 2 - (i - |R|)];
        } else {
          assert s[i] == R[i];
        }
      }
    }
    SpliceAllRing(ns1, R, lifted);
    RingFrame(SpliceAll(ns1, roots, lifted), ns, s);
  }

  /** Lines 184 and 195-204 when every node above `node` on its path `A`
      was marked: the loop lifts the tree root `A[0]` too, although that
      node is already a live member of the root ring `R`, so it is spliced
      into the ring a second time and counted in `degree` again. */
  lemma TreeRootRelifted(ns: seq<Node>, A: seq<int>, R: seq<int>, L: set<int>, lifted: seq<int>)
    requires Ancestry(ns, A, R) && A[0] in L && RootsOf(ns, R, L)
    requires |A| > 1 && |lifted| == |A| - 1 && forall k | 0 <= k < |lifted| :: lifted[k] == A[|A| - 2 - k]
    ensures A[0] in lifted && A[0] in R
  {
    assert lifted[|A| - 2] == A[0];
  }

  /** Each round of the loop of lines 177-205 that goes on unmarks one
      more of the nodes marked when it began, so the loop ends. */
  lemma MarkedShrinks(ns1: seq<Node>, lifted: seq<int>, p: int)
    requires p in Marked(ns1) && p !in lifted
    ensures Marked(ns1) - Elems(lifted + [p]) < Marked(ns1) - Elems(lifted)
  {
    assert p !in Marked(ns1) - Elems(lifted + [p]);
  }

  /** After a decrease of `node`'s value on a valid heap, whose old `min0`
      was at most every live value, the loop of lines 177-205 leaves a
      least live node in `min`: it only moves `min` to nodes of the path
      above `node`, which are live, and only to smaller values. */
  lemma DecreaseMin(ns0: seq<Node>, ns1: seq<Node>, ns: seq<Node>, roots: int, L: set<int>, A: seq<int>,
                    node: int, value: int, min0: int, min: int, lifted: seq<int>, stop: int)
    requires 0 <= node < |ns0| && value <= ns0[node].value && ns1 == ns0[node := ns0[node].(value := value)]
    requires node in L && min0 in L && forall x | x in L :: 0 <= x < |ns0|
    requires forall x | x in L :: ns0[min0].value <= ns0[x].value
    requires forall i | 0 <= i < |A| :: A[i] in L
    requires Exited(ns1, ns, roots, node, lifted, stop) && UpPath(ns1, ns, A, lifted, stop)
    requires MinSoFar(ns1, min, min0, node, lifted, true)
    ensures min in L && forall x | x in L :: ns[min].value <= ns[x].value
  {
    FinalFrame(ns1, ns, roots, node, lifted, stop);
    if min in lifted {
      var k :| 0 <= k < |lifted| && lifted[k] == min;
      assert A[|A| - 2 - k] in L;
    }
    forall x | x in L ensures ns[min].value <= ns[x].value {
      assert ns[x].value == ns1[x].value;
      if x != node {
        assert ns1[min0].value <= ns0[min0].value;
      }
    }
  }

  /** Storing a new value at a live node (line 174) keeps its path an
      ancestry and the root ring a ring. */
  lemma ValueKeepsPath(ns0: seq<Node>, roots: int, min: int, degree: nat, R: seq<int>,
                       L: set<int>, K: map<int, seq<int>>, P: map<int, seq<int>>, node: int, value: int)
    requires ForestOk(ns0, L, K, P) && RootRingOk(ns0, roots, min, degree, R, L) && node in L && degree > 0
    ensures 0 <= node < |ns0|
    ensures var ns1 := ns0[node := ns0[node].(value := value)];
      && node in P && |P[node]| > 0 && P[node][|P[node]| - 1] == node && Ancestry(ns1, P[node], R)
      && Ring(ns1, R) && |R| > 0 && R[0] == roots
      && (forall i | 0 <= i < |P[node]| :: P[node][i] in L)
  {
    PathAncestry(ns0, roots, min, degree, R, L, K, P, node);
    var ns1 := ns0[node := ns0[node].(value := value)];
    var A := P[node];
    forall i | 0 <= i < |A| ensures ns1[A[i]].parent == ns0[A[i]].parent {
    }
    RingFrame(ns0, ns1, R);
  }
}
