/** The heap invariant across each phase of `Push` and `Pop`, stated on
    the arena before and after the phase. */
module Steps {
  import opened Nodes
  import opened Forest
  import opened Consolidation

  /** `Push` keeps the heap a valid forest, with the new node as the last root. */
  lemma PushValid(ns0: seq<Node>, ns: seq<Node>, roots: int, min0: int, min: int, degree: nat,
                  R: seq<int>, L: set<int>, K: map<int, seq<int>>, P: map<int, seq<int>>, h: int, value: int)
    requires Shape(ns0) && ForestOk(ns0, L, K, P) && RootRingOk(ns0, roots, min0, degree, R, L)
    requires h == |ns0| && Shape(ns0 + [Fresh(value, h)])
    requires degree == 0 ==> ns == ns0 + [Fresh(value, h)] && min == h
    requires degree > 0 ==>
      && ns == SpliceBefore(ns0 + [Fresh(value, h)], roots, h)
      && min == (if value < ns0[min0].value then h else min0)
    ensures ForestOk(ns, L + {h}, K[h := []], P[h := [h]])
    ensures RootRingOk(ns, if degree == 0 then h else roots, min, degree + 1, R + [h], L + {h})
  {
    var ns1 := ns0 + [Fresh(value, h)];
    assert h !in L;
    if degree > 0 {
      assert Ring(ns1, R) by { RingFrame(ns0, ns1, R); }
      SpliceBeforeRing(ns1, R, h);
    }
    ForestFrame(ns0, ns, L, K, P);
    ForestAddRoot(ns, L, K, P, h);
    var R' := R + [h];
    forall i | 0 <= i < |R'| ensures ns[min].value <= ns[R'[i]].value {
      if i < |R| { assert R'[i] == R[i]; }
    }
  }


  /** What lines 88-99 leave behind when `min`, a root whose children ring
      is `C`, has its children cut loose and hooked in after the last root
      of `R`: zero degree on `min`, no parent on the children, and ring
      links changed only where the two rings are joined. */
  ghost predicate Promoted(ns0: seq<Node>, ns: seq<Node>, min: int, R: seq<int>, C: seq<int>)
    requires 0 <= min < |ns0| && |R| > 0
  {
    && |ns| == |ns0|
    && (forall x | 0 <= x < |ns0| :: ns[x].value == ns0[x].value)
    && ns[min].degree == 0 && ns[min].parent == NIL
    && (forall x | 0 <= x < |ns0| && x != min ::
          && ns[x].children == ns0[x].children && ns[x].degree == ns0[x].degree
          && ns[x].parent == (if x in C then NIL else ns0[x].parent))
    && (C == [] ==> forall x | 0 <= x < |ns0| :: ns[x].prev == ns0[x].prev && ns[x].next == ns0[x].next)
    && (C != [] ==>
          && 0 <= C[0] < |ns| && 0 <= C[|C| - 1] < |ns| && 0 <= R[0] < |ns| && 0 <= R[|R| - 1] < |ns|
          && ns[C[|C| - 1]].next == R[0] && ns[R[|R| - 1]].next == C[0]
          && ns[C[0]].prev == R[|R| - 1] && ns[R[0]].prev == C[|C| - 1]
          && (forall x | 0 <= x < |ns0| && x != C[|C| - 1] && x != R[|R| - 1] :: ns[x].next == ns0[x].next)
          && (forall x | 0 <= x < |ns0| && x != C[0] && x != R[0] :: ns[x].prev == ns0[x].prev))
  }

  /** Lines 94-96 make one ring of the roots followed by `min`'s children. */
  lemma PromoteRing(ns0: seq<Node>, ns: seq<Node>, roots: int, min: int, degree: nat,
                    R: seq<int>, L: set<int>, K: map<int, seq<int>>, P: map<int, seq<int>>)
    requires ForestOk(ns0, L, K, P) && RootRingOk(ns0, roots, min, degree, R, L) && degree > 0
    requires min in K && 0 <= min < |ns0| && Promoted(ns0, ns, min, R, K[min])
    ensures Ring(ns, R + K[min])
  {
    assert min in L by { var i :| 0 <= i < |R| && R[i] == min; }
    assert LiveOk(ns0, L, K, P, min);
    var C := K[min];
    if C == [] {
      RingFrame(ns0, ns, R);
    } else {
      forall i, j | 0 <= i < |R| && 0 <= j < |C| ensures R[i] != C[j] {
        assert ns0[R[i]].parent == NIL && ns0[C[j]].parent == min;
      }
      PromoteRingJoin(ns0, ns, min, R, C);
    }
  }

  /** The joining step of `PromoteRing`: two disjoint rings, relinked as
      `Promoted` says, form one. */
  lemma PromoteRingJoin(ns0: seq<Node>, ns: seq<Node>, min: int, R: seq<int>, C: seq<int>)
    requires Ring(ns0, R) && Ring(ns0, C) && 0 <= min < |ns0| && |R| > 0 && C != []
    requires forall i, j | 0 <= i < |R| && 0 <= j < |C| :: R[i] != C[j]
    requires Promoted(ns0, ns, min, R, C)
    ensures Ring(ns, R + C)
  {
    forall i | 0 <= i < |R| - 1 ensures ns[R[i]].next == ns0[R[i]].next {
      assert R[i] != R[|R| - 1];
      assert R[i] != C[|C| - 1];
    }
    forall i | 0 < i < |R| ensures ns[R[i]].prev == ns0[R[i]].prev {
      assert R[i] != R[0];
      assert R[i] != C[0];
    }
    forall i | 0 <= i < |C| - 1 ensures ns[C[i]].next == ns0[C[i]].next {
      assert C[i] != C[|C| - 1];
      assert C[i] != R[|R| - 1];
    }
    forall i | 0 < i < |C| ensures ns[C[i]].prev == ns0[C[i]].prev {
      assert C[i] != C[0];
      assert C[i] != R[0];
    }
    RingJoin(ns0, ns, R, C);
  }

  /** Lines 88-99 on a valid heap: the heap is again a forest whose roots
      all sit in the ring entered at `roots`, now followed by `min`'s former
      children, and `min` is still a least root. */
  lemma PromoteValid(ns0: seq<Node>, ns: seq<Node>, roots: int, min: int, degree: nat,
                     R: seq<int>, L: set<int>, K: map<int, seq<int>>, P: map<int, seq<int>>)
    requires ForestOk(ns0, L, K, P) && RootRingOk(ns0, roots, min, degree, R, L) && degree > 0
    requires min in K && 0 <= min < |ns0| && Promoted(ns0, ns, min, R, K[min])
    ensures ForestOk(ns, L, K[min := []], Unhang(P, min))
    ensures RootRingOk(ns, roots, min, |R + K[min]|, R + K[min], L)
  {
    assert min in L by { var i :| 0 <= i < |R| && R[i] == min; }
    assert LiveOk(ns0, L, K, P, min);
    var C := K[min];
    PromoteRing(ns0, ns, roots, min, degree, R, L, K, P);
    forall x | x in L && 0 <= x < |ns0| && ns0[x].parent == min ensures x in C {
      assert LiveOk(ns0, L, K, P, x);
    }
    forall x | x in L && 0 <= x < |ns0| && ns0[x].parent != NIL && ns0[x].parent != min
      ensures ns[x].next == ns0[x].next && ns[x].prev == ns0[x].prev && x !in C
    {
      assert LiveOk(ns0, L, K, P, x);
      if C != [] {
        assert ns0[C[0]].parent == min && ns0[C[|C| - 1]].parent == min;
      }
    }
    ForestPromote(ns0, ns, L, K, P, min);
    var R' := R + C;
    forall i | 0 <= i < |R'| ensures R'[i] in L && ns[R'[i]].parent == NIL && ns[min].value <= ns[R'[i]].value {
      if i < |R| {
        assert R'[i] == R[i];
      } else {
        assert R'[i] == C[i - |R|];
        assert LiveOk(ns0, L, K, P, C[i - |R|]);
      }
    }
    forall x | x in L ensures 0 <= x < |ns| && (ns[x].parent == NIL ==> x in R') {
      if ns[x].parent == NIL && x != min && x !in C {
        assert x in R;
      }
    }
  }

  /** One turn of the loop at lines 89-92: the child `m->children` loses
      its parent, `m` moves on to the next child and counts one fewer. */
  function CutStep(ns: seq<Node>, m: int): (r: seq<Node>)
    requires Shape(ns) && IsAddr(ns, m) && ns[m].degree > 0
    ensures |r| == |ns| && Shape(r) && IsAddr(r, r[m].children)
    ensures forall x | 0 <= x < |ns| :: r[x].value == ns[x].value && (x != m ==> r[x].degree == ns[x].degree)
  {
    assert NodeShape(ns, m);
    var c := ns[m].children;
    assert NodeShape(ns, c);
    ShapeUpdate(ns, c, ns[c].(parent := NIL));
    var ns1 := ns[c := ns[c].(parent := NIL)];
    assert NodeShape(ns1, m) && NodeShape(ns1, c);
    ShapeUpdate(ns1, m, ns1[m].(children := ns1[c].next, degree := ns1[m].degree - 1));
    ns1[m := ns1[m].(children := ns1[c].next, degree := ns1[m].degree - 1)]
  }

  /** After `i` turns of the loop at lines 89-92 over `m`'s children ring
      `C`: the first `i` children have no parent, and `m` points at the
      next child to visit, back at the first once all are visited. */
  ghost predicate CutSoFar(ns0: seq<Node>, ns: seq<Node>, m: int, C: seq<int>, i: nat)
    requires 0 <= m < |ns0| && 0 < |C| && i <= |C|
  {
    && |ns| == |ns0|
    && ns[m] == ns0[m].(degree := |C| - i, children := if i == |C| then C[0] else C[i])
    && forall x | 0 <= x < |ns| && x != m :: ns[x] == if x in C[..i] then ns0[x].(parent := NIL) else ns0[x]
  }

  /** Lines 89-92, one turn: the next child of `m`'s ring loses its
      parent and `m->children` moves on to the child after it. */
  lemma CutStepNext(ns0: seq<Node>, ns: seq<Node>, m: int, C: seq<int>, i: nat)
    requires Ring(ns0, C) && 0 <= m < |ns0| && m !in C && i < |C|
    requires Shape(ns) && CutSoFar(ns0, ns, m, C, i)
    ensures CutSoFar(ns0, CutStep(ns, m), m, C, i + 1)
  {
    var c := C[i];
    assert C[..i + 1] == C[..i] + [c];
    assert c !in C[..i] by {
      forall k | 0 <= k < i ensures C[k] != c { }
    }
    assert ns[c] == ns0[c];
  }

  /** Lines 94-96: hook the ring entered at `c0` in after the last member
      of the ring entered at `r0`, then swap the two `prev` links at the
      seams. */
  function JoinRings(ns: seq<Node>, r0: int, c0: int): (r: seq<Node>)
    requires Shape(ns) && IsAddr(ns, r0) && IsAddr(ns, c0)
    ensures |r| == |ns| && Shape(r) && LinksOnly(ns, r)
  {
    assert NodeShape(ns, c0) && NodeShape(ns, r0);
    var lC := ns[c0].prev;
    assert NodeShape(ns, lC);
    var ns1 := Relink(ns, lC, ns[lC].prev, r0);
    assert NodeShape(ns1, r0);
    var lR := ns1[r0].prev;
    assert NodeShape(ns1, lR);
    var ns2 := Relink(ns1, lR, ns1[lR].prev, c0);
    assert NodeShape(ns2, c0) && NodeShape(ns2, r0);
    var a, b := ns2[c0].prev, ns2[r0].prev;
    var ns3 := Relink(ns2, c0, b, ns2[c0].next);
    assert NodeShape(ns3, r0);
    var r := Relink(ns3, r0, a, ns3[r0].next);
    LinksOnlyTrans(ns, ns1, ns2);
    LinksOnlyTrans(ns, ns2, ns3);
    LinksOnlyTrans(ns, ns3, r);
    r
  }

  /** The links `JoinRings` leaves at the seams, and nowhere else. */
  lemma JoinRingsLinks(ns: seq<Node>, r0: int, c0: int)
    requires Shape(ns) && IsAddr(ns, r0) && IsAddr(ns, c0)
    ensures IsAddr(ns, ns[c0].prev) && IsAddr(ns, ns[r0].prev)
    ensures LinksOnly(ns, JoinRings(ns, r0, c0))
    ensures var r, lC, lR := JoinRings(ns, r0, c0), ns[c0].prev, ns[r0].prev;
      && r[lR].next == c0 && (lC != lR ==> r[lC].next == r0)
      && r[r0].prev == lC && (c0 != r0 ==> r[c0].prev == lR)
      && (forall x | 0 <= x < |ns| && x != lC && x != lR :: r[x].next == ns[x].next)
      && (forall x | 0 <= x < |ns| && x != c0 && x != r0 :: r[x].prev == ns[x].prev)
  {
    assert NodeShape(ns, c0) && NodeShape(ns, r0);
    JoinRingsNext(ns, r0, c0);
    JoinRingsPrev(ns, r0, c0);
  }

  /** The `next` links `JoinRings` rewrites: the two last members now lead
      into the other ring; every other `next` link is kept. */
  lemma JoinRingsNext(ns: seq<Node>, r0: int, c0: int)
    requires Shape(ns) && IsAddr(ns, r0) && IsAddr(ns, c0)
    requires IsAddr(ns, ns[c0].prev) && IsAddr(ns, ns[r0].prev)
    ensures var r, lC, lR := JoinRings(ns, r0, c0), ns[c0].prev, ns[r0].prev;
      && r[lR].next == c0 && (lC != lR ==> r[lC].next == r0)
      && (forall x | 0 <= x < |ns| && x != lC && x != lR :: r[x].next == ns[x].next)
  {
  }

  /** The `prev` links `JoinRings` swaps: those of the two entry nodes;
      every other `prev` link is kept. */
  lemma JoinRingsPrev(ns: seq<Node>, r0: int, c0: int)
    requires Shape(ns) && IsAddr(ns, r0) && IsAddr(ns, c0)
    requires IsAddr(ns, ns[c0].prev) && IsAddr(ns, ns[r0].prev)
    ensures var r, lC, lR := JoinRings(ns, r0, c0), ns[c0].prev, ns[r0].prev;
      && r[r0].prev == lC && (c0 != r0 ==> r[c0].prev == lR)
      && (forall x | 0 <= x < |ns| && x != c0 && x != r0 :: r[x].prev == ns[x].prev)
  {
  }

  /** Lines 89-96 on a valid heap leave the arena `Promoted`. */
  lemma CutJoinPromoted(ns0: seq<Node>, ns1: seq<Node>, roots: int, min: int, degree: nat,
                        R: seq<int>, L: set<int>, K: map<int, seq<int>>, P: map<int, seq<int>>)
    requires ForestOk(ns0, L, K, P) && RootRingOk(ns0, roots, min, degree, R, L) && degree > 0
    requires min in K && 0 <= min < |ns0| && |K[min]| > 0
    requires Shape(ns1) && CutSoFar(ns0, ns1, min, K[min], |K[min]|)
    ensures IsAddr(ns1, roots) && IsAddr(ns1, ns1[min].children)
    ensures Promoted(ns0, JoinRings(ns1, roots, ns1[min].children), min, R, K[min])
  {
    assert min in L by { var i :| 0 <= i < |R| && R[i] == min; }
    assert LiveOk(ns0, L, K, P, min);
    var C := K[min];
    forall i, j | 0 <= i < |R| && 0 <= j < |C| ensures R[i] != C[j] {
      assert ns0[R[i]].parent == NIL && ns0[C[j]].parent == min;
    }
    assert C[..|C|] == C;
    assert ns0[min].parent == NIL;
    CutJoinRings(ns0, ns1, min, R, C);
  }

  /** The relinking half of `CutJoinPromoted`: once the children ring `C`
      of `min` is cut loose, joining it to the disjoint root ring `R`
      leaves the arena `Promoted`. */
  lemma CutJoinRings(ns0: seq<Node>, ns1: seq<Node>, min: int, R: seq<int>, C: seq<int>)
    requires Ring(ns0, R) && Ring(ns0, C) && |R| > 0 && |C| > 0 && 0 <= min < |ns0|
    requires forall i, j | 0 <= i < |R| && 0 <= j < |C| :: R[i] != C[j]
    requires Shape(ns1) && CutSoFar(ns0, ns1, min, C, |C|) && C[..|C|] == C && ns0[min].parent == NIL
    ensures IsAddr(ns1, R[0]) && IsAddr(ns1, ns1[min].children)
    ensures Promoted(ns0, JoinRings(ns1, R[0], ns1[min].children), min, R, C)
  {
    assert forall x | 0 <= x < |ns1| :: ns1[x].prev == ns0[x].prev && ns1[x].next == ns0[x].next;
    assert R[0] != C[0] && R[|R| - 1] != C[|C| - 1];
    assert ns1[C[0]].prev == C[|C| - 1] && ns1[R[0]].prev == R[|R| - 1];
    JoinRingsLinks(ns1, R[0], C[0]);
    CutJoinLinked(ns0, ns1, JoinRings(ns1, R[0], C[0]), min, R, C);
  }

  /** `CutJoinRings` stated of any arena `r` whose links differ from those
      of `ns1` exactly where the two rings are joined. */
  lemma CutJoinLinked(ns0: seq<Node>, ns1: seq<Node>, r: seq<Node>, min: int, R: seq<int>, C: seq<int>)
    requires Ring(ns0, R) && Ring(ns0, C) && |R| > 0 && |C| > 0 && 0 <= min < |ns0|
    requires CutSoFar(ns0, ns1, min, C, |C|) && C[..|C|] == C && ns0[min].parent == NIL
    requires LinksOnly(ns1, r)
    requires r[R[|R| - 1]].next == C[0] && r[C[|C| - 1]].next == R[0]
    requires r[R[0]].prev == C[|C| - 1] && r[C[0]].prev == R[|R| - 1]
    requires forall x | 0 <= x < |ns1| && x != C[|C| - 1] && x != R[|R| - 1] :: r[x].next == ns1[x].next
    requires forall x | 0 <= x < |ns1| && x != C[0] && x != R[0] :: r[x].prev == ns1[x].prev
    ensures Promoted(ns0, r, min, R, C)
  {
    assert forall x | 0 <= x < |ns1| :: ns1[x].prev == ns0[x].prev && ns1[x].next == ns0[x].next;
  }

  /** On a valid heap the minimum is a live root whose children ring has
      as many members as its degree, entered at its `children` pointer. */
  lemma MinKids(ns: seq<Node>, roots: int, min: int, degree: nat,
                R: seq<int>, L: set<int>, K: map<int, seq<int>>, P: map<int, seq<int>>)
    requires ForestOk(ns, L, K, P) && RootRingOk(ns, roots, min, degree, R, L) && degree > 0
    ensures min in L && min in K && 0 <= min < |ns| && Ring(ns, K[min]) && |K[min]| == ns[min].degree
    ensures min !in K[min] && (|K[min]| > 0 ==> ns[min].children == K[min][0])
  {
    assert min in L by { var i :| 0 <= i < |R| && R[i] == min; }
    assert LiveOk(ns, L, K, P, min);
    var C := K[min];
    forall i | 0 <= i < |C| ensures C[i] != min {
      assert ns[C[i]].parent == min;
    }
  }

  /** Lines 88-99 on a valid heap, whether or not `min` has children:
      `ns1` is the arena after the loop at lines 89-92 and `ns` the arena
      at line 99. */
  lemma PromoteAll(ns0: seq<Node>, ns1: seq<Node>, ns: seq<Node>, roots: int, min: int, degree: nat,
                   R: seq<int>, L: set<int>, K: map<int, seq<int>>, P: map<int, seq<int>>)
    requires ForestOk(ns0, L, K, P) && RootRingOk(ns0, roots, min, degree, R, L) && degree > 0
    requires min in K && 0 <= min < |ns0| && |K[min]| == ns0[min].degree
    requires ns0[min].degree == 0 ==> ns == ns0
    requires ns0[min].degree > 0 ==>
      && Shape(ns1) && CutSoFar(ns0, ns1, min, K[min], |K[min]|)
      && IsAddr(ns1, roots) && IsAddr(ns1, ns1[min].children)
      && ns == JoinRings(ns1, roots, ns1[min].children)
    ensures ForestOk(ns, L, K[min := []], Unhang(P, min))
    ensures RootRingOk(ns, roots, min, |R + K[min]|, R + K[min], L)
    ensures forall x | 0 <= x < |ns0| :: ns[x].value == ns0[x].value
  {
    if ns0[min].degree > 0 {
      CutJoinPromoted(ns0, ns1, roots, min, degree, R, L, K, P);
    } else {
      assert LiveOk(ns0, L, K, P, min) by { assert min in L by { var i :| 0 <= i < |R| && R[i] == min; } }
      assert Promoted(ns0, ns, min, R, K[min]);
    }
    PromoteValid(ns0, ns, roots, min, degree, R, L, K, P);
  }

  /** A childless root `m` whose ring neighbours `p` and `n` are roots
      too leaves a forest behind when it is unlinked. */
  lemma DropRoot(ns: seq<Node>, m: int, p: int, n: int, L: set<int>, K: map<int, seq<int>>, P: map<int, seq<int>>)
    requires Shape(ns) && ForestOk(ns, L, K, P) && m in L && m in K && K[m] == []
    requires IsAddr(ns, m) && ns[m].parent == NIL && p == ns[m].prev && n == ns[m].next
    requires IsAddr(ns, p) && IsAddr(ns, n) && ns[p].parent == NIL && ns[n].parent == NIL
    ensures ForestOk(Unlink(ns, m), L - {m}, K, P)
  {
    var L' := L - {m};
    forall y | y in L' && 0 <= y < |ns| && ns[y].parent != NIL ensures ns[y].parent in L' {
      assert LiveOk(ns, L, K, P, y);
    }
    forall y, k | y in L' && y in K && 0 <= k < |K[y]| ensures K[y][k] in L' {
      assert LiveOk(ns, L, K, P, y);
    }
    ForestRestrict(ns, L, K, P, L');
    ForestFrame(ns, Unlink(ns, m), L', K, P);
  }

  /** The ring neighbours of a ring member are members too; the next one
      heads the ring read from after it. */
  lemma RingNeighbours(ns: seq<Node>, T: seq<int>, i: int)
    requires Ring(ns, T) && |T| >= 2 && 0 <= i < |T|
    ensures ns[T[i]].prev in T && ns[T[i]].next in T
    ensures ns[T[i]].next == (T[i + 1..] + T[..i])[0]
  {
    if i == 0 {
      assert ns[T[i]].prev == T[|T| - 1];
    } else {
      assert ns[T[i - 1]].next == T[i];
    }
    if i == |T| - 1 {
      assert ns[T[i]].next == T[0];
    } else {
      assert ns[T[i]].next == T[i + 1];
    }
  }

  /** Unlinking root `T[i]` leaves the other members of `T`, read from
      after it, as the roots of the remaining nodes. */
  lemma UnlinkRoots(ns: seq<Node>, T: seq<int>, i: int, L: set<int>)
    requires Shape(ns) && RootsOf(ns, T, L) && Distinct(T) && 0 <= i < |T|
    ensures RootsOf(Unlink(ns, T[i]), T[i + 1..] + T[..i], L - {T[i]})
  {
    var S := T[i + 1..] + T[..i];
    var r := Unlink(ns, T[i]);
    assert forall x | 0 <= x < |ns| :: r[x].parent == ns[x].parent;
    forall k | 0 <= k < |S| ensures S[k] in L - {T[i]} && 0 <= S[k] < |r| && r[S[k]].parent == NIL {
      if k < |T| - i - 1 {
        assert S[k] == T[k + i + 1];
      } else {
        assert S[k] == T[k + i + 1 - |T|];
      }
    }
    forall x | x in L - {T[i]} ensures 0 <= x < |r| && (r[x].parent == NIL ==> x in S) {
      if ns[x].parent == NIL {
        var k :| 0 <= k < |T| && T[k] == x;
        if k > i {
          assert S[k - i - 1] == x;
        } else {
          assert S[|T| - i - 1 + k] == x;
        }
      }
    }
  }

  /** Lines 107-112 once `min` is childless: the other roots, read from
      `min->next`, still form a ring and are the roots of the forest
      without `min`. */
  lemma UnlinkValid(ns: seq<Node>, roots: int, min: int, T: seq<int>,
                    L: set<int>, K: map<int, seq<int>>, P: map<int, seq<int>>, i: int)
    requires Shape(ns) && ForestOk(ns, L, K, P) && RootRingOk(ns, roots, min, |T|, T, L)
    requires |T| >= 2 && 0 <= i < |T| && T[i] == min && min in K && K[min] == []
    ensures IsAddr(ns, min) && ns[min].next == (T[i + 1..] + T[..i])[0]
    ensures Ring(Unlink(ns, min), T[i + 1..] + T[..i])
    ensures ForestOk(Unlink(ns, min), L - {min}, K, P)
    ensures RootsOf(Unlink(ns, min), T[i + 1..] + T[..i], L - {min})
  {
    UnlinkRing(ns, T, i);
    RingNeighbours(ns, T, i);
    DropRoot(ns, min, ns[min].prev, ns[min].next, L, K, P);
    UnlinkRoots(ns, T, i, L);
  }

  /** The position of `x` in `s`. */
  function IndexOf(s: seq<int>, x: int): (i: nat)
    requires x in s
    ensures i < |s| && s[i] == x && x !in s[..i]
  {
    if s[0] == x then 0
    else
      var i := 1 + IndexOf(s[1..], x);
      assert s[..i] == [s[0]] + s[1..][..i - 1];
      i
  }

  /** Lines 97-118: the roots the consolidation walks. `R` is the root
      ring and `m` its minimum, whose children `K[m]` were hooked in after
      the last root; the walk starts at `m`'s successor and takes `n`
      roots, `n` being the count of old roots less `m`. */
  ghost function Survivors(R: seq<int>, K: map<int, seq<int>>, m: int, n: nat): (s: seq<int>)
    ensures |s| <= n
  {
    var T := R + (if m in K then K[m] else []);
    if m in T && n < |T| then
      var i := IndexOf(T, m);
      (T[i + 1..] + T[..i])[..n]
    else []
  }

  /** Once `m`'s children are in `T`, the survivors are the first `n`
      members of `T` read from `m`'s successor. */
  lemma SurvivorsOfRing(T: seq<int>, K: map<int, seq<int>>, m: int, n: nat)
    requires m in K && K[m] == [] && m in T && n < |T|
    ensures Survivors(T, K, m, n) == (T[IndexOf(T, m) + 1..] + T[..IndexOf(T, m)])[..n]
  {
    assert T + K[m] == T;
  }

  /** Reading the survivors off the joined ring, once `m`'s children are
      part of it, gives the same roots. */
  lemma SurvivorsJoined(R: seq<int>, K: map<int, seq<int>>, m: int, n: nat)
    requires m in K
    ensures Survivors(R + K[m], K[m := []], m, n) == Survivors(R, K, m, n)
  {
    assert R + K[m] + [] == R + K[m];
  }

  /** The trees of the first `n` members of a root ring form a forest of
      their own, whose roots those members are, threaded in order. */
  lemma SurvivorTrees(ns: seq<Node>, U: seq<int>, L: set<int>, K: map<int, seq<int>>, P: map<int, seq<int>>, n: nat)
    requires Ring(ns, U) && ForestOk(ns, L, K, P) && RootsOf(ns, U, L) && n <= |U|
    ensures Chain(ns, U[..n]) && Distinct(U[..n])
    ensures ForestOk(ns, TreesOf(L, P, Elems(U[..n])), K, P)
    ensures RootsOf(ns, U[..n], TreesOf(L, P, Elems(U[..n])))
  {
    var S := U[..n];
    var W := Elems(S);
    var L' := TreesOf(L, P, W);
    ForestTrees(ns, L, K, P, W);
    forall k | 0 <= k < |S| ensures S[k] in L' && 0 <= S[k] < |ns| && ns[S[k]].parent == NIL {
      assert S[k] == U[k] && S[k] in W;
      assert LiveOk(ns, L, K, P, S[k]);
    }
    forall x | x in L' ensures 0 <= x < |ns| && (ns[x].parent == NIL ==> x in S) {
      assert LiveOk(ns, L, K, P, x);
    }
  }

  /** Taking `m` out of a root ring `T` that holds no children of `m`
      leaves its first `n` successors as a chain of distinct roots, each
      with its whole tree, headed by `m`'s old successor. */
  lemma PopSurvivors(ns: seq<Node>, roots: int, m: int, T: seq<int>,
                     L: set<int>, K: map<int, seq<int>>, P: map<int, seq<int>>, n: nat)
    returns (S: seq<int>, L1: set<int>)
    requires Shape(ns) && ForestOk(ns, L, K, P) && RootRingOk(ns, roots, m, |T|, T, L)
    requires m in K && K[m] == [] && 1 <= n < |T|
    ensures S == Survivors(T, K, m, n) && |S| == n
    ensures forall k | 0 <= k < |S| :: S[k] != m
    ensures L1 == TreesOf(L - {m}, P, Elems(S))
    ensures IsAddr(ns, m) && S[0] == ns[m].next
    ensures Chain(Unlink(ns, m), S) && Distinct(S)
    ensures ForestOk(Unlink(ns, m), L1, K, P) && RootsOf(Unlink(ns, m), S, L1)
  {
    var i := IndexOf(T, m);
    UnlinkValid(ns, roots, m, T, L, K, P, i);
    var U := T[i + 1..] + T[..i];
    S := U[..n];
    SurvivorsOfRing(T, K, m, n);
    assert forall k | 0 <= k < |S| :: S[k] == U[k] && U[k] in L - {m};
    L1 := TreesOf(L - {m}, P, Elems(S));
    SurvivorTrees(Unlink(ns, m), U, L - {m}, K, P, n);
  }

  /** Without children to promote, the walk covers every root but `min`
      and the popped heap keeps every other node. */
  lemma ChildlessSurvivors(ns: seq<Node>, roots: int, min: int, R: seq<int>,
                           L: set<int>, K: map<int, seq<int>>, P: map<int, seq<int>>)
    requires ForestOk(ns, L, K, P) && RootRingOk(ns, roots, min, |R|, R, L) && |R| >= 2
    requires min in K && K[min] == []
    ensures TreesOf(L - {min}, Unhang(P, min), Elems(Survivors(R, K, min, |R| - 1))) == L - {min}
  {
    assert R + K[min] == R;
    var i := IndexOf(R, min);
    var U := R[i + 1..] + R[..i];
    assert U[..|R| - 1] == U;
    var S := Survivors(R, K, min, |R| - 1);
    assert S == U;
    forall y | y in L - {min} ensures y in TreesOf(L - {min}, Unhang(P, min), Elems(S)) {
      RootOfLive(ns, L, K, P, y);
      var r := P[y][0];
      if r == min {
        ChildlessTree(ns, L, K, P, min, y);
      }
      assert Unhang(P, min)[y] == P[y];
      var k :| 0 <= k < |R| && R[k] == r;
      if k > i {
        assert U[k - i - 1] == r;
      } else {
        assert k != i && U[|R| - i - 1 + k] == r;
      }
    }
  }

  /** Lines 146-169 on the consolidated forest: the table's roots, threaded
      into a ring entered at the first of them with `min` the first least
      one, make the heap valid again. */
  lemma RebuildValid(ns: seq<Node>, ns': seq<Node>, roots: int, min: int, T: seq<int>,
                     L: set<int>, K: map<int, seq<int>>, P: map<int, seq<int>>)
    requires ForestOk(ns, L, K, P) && RootsOf(ns, T, L) && LinksOnly(ns, ns')
    requires forall x | 0 <= x < |ns| && x !in T :: ns'[x] == ns[x]
    requires Ring(ns', T) && T != [] && roots == T[0] && FirstLeast(ns', T, min)
    ensures ForestOk(ns', L, K, P) && RootRingOk(ns', roots, min, |T|, T, L)
  {
    forall x | x in L && 0 <= x < |ns| && ns[x].parent != NIL
      ensures ns'[x].next == ns[x].next && ns'[x].prev == ns[x].prev
    {
      assert x !in T;
    }
    ForestFrame(ns, ns', L, K, P);
    var j :| 0 <= j < |T| && T[j] == min;
  }
}
