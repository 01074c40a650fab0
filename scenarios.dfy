/** Short runs of the heap, with what each must return. */
module Scenarios {
  import opened Nodes
  import opened Forest
  import opened Consolidation
  import opened Steps
  import opened Sweep
  import opened Heap
  import opened Cuts

  /** The `Empty` test, with an empty `Top` and `Pop` added: a new heap is
      empty, has no top and reports an empty pop; after one push it is not
      empty. */
  method EmptyThenPush() returns (before: bool, none: Option<int>, outcome: PopOutcome, after: bool)
    ensures before && none.None? && outcome == EmptyHeap && !after
  {
    var h := new FibonacciHeap();
    before := h.Empty();
    none := h.Top();
    outcome := h.Pop();
    var a := h.Push(1);
    after := h.Empty();
  }

  /** The `Top` test: pushing 3, then 1, then 2, the top is the least
      value pushed so far: 3, then 1, then still 1. */
  method PushThree() returns (top1: Option<int>, top2: Option<int>, top3: Option<int>)
    ensures top1 == Some(3) && top2 == Some(1) && top3 == Some(1)
  {
    var h := new FibonacciHeap();
    var a := h.Push(3);
    top1 := h.Top();
    var b := h.Push(1);
    top2 := h.Top();
    var c := h.Push(2);
    top3 := h.Top();
  }

  /** The index of the first least of `vs`: where a run of pushes of
      `vs` leaves `min`, since a later equal value does not replace it. */
  function LeastIndex(vs: seq<int>): (m: nat)
    requires vs != []
    ensures m < |vs| && (forall x | 0 <= x < |vs| :: vs[m] <= vs[x]) && (forall x | 0 <= x < m :: vs[m] < vs[x])
  {
    if |vs| == 1 then 0
    else
      var m := LeastIndex(vs[..|vs| - 1]);
      if vs[|vs| - 1] < vs[m] then |vs| - 1 else m
  }

  /** The arena `ns`, root ring `R`, live set `L`, children rings `K`,
      paths `P`, `min` and `degree` of a heap into which the values `vs`
      were pushed in order: one one-node tree per value, in push order
      along the root ring. */
  ghost predicate PushedState(ns: seq<Node>, R: seq<int>, L: set<int>, K: map<int, seq<int>>,
                              P: map<int, seq<int>>, min: int, degree: nat, vs: seq<int>)
  {
    && |ns| == |vs| == degree == |R|
    && (forall i | 0 <= i < |R| :: R[i] == i)
    && (forall x :: x in L <==> 0 <= x < |vs|)
    && K.Keys == L && (forall x | x in K :: K[x] == [])
    && P.Keys == L && (forall x | x in P :: P[x] == [x])
    && (forall x | 0 <= x < |vs| :: ns[x].degree == 0 && ns[x].value == vs[x])
    && (vs != [] ==> min == LeastIndex(vs))
  }

  /** `h` is a valid heap into which the values `vs` were pushed in order. */
  ghost predicate Pushed(h: FibonacciHeap, vs: seq<int>)
    reads h
  {
    h.Valid() && PushedState(h.nodes, h.Roots, h.Live, h.Kids, h.Path, h.min, h.degree, vs)
  }

  /** `Push` of `v` adds one one-node tree at the end of the root ring. */
  lemma PushedStep(ns0: seq<Node>, R: seq<int>, L: set<int>, K: map<int, seq<int>>, P: map<int, seq<int>>,
                   min0: int, d0: nat, vs: seq<int>,
                   ns: seq<Node>, R': seq<int>, L': set<int>, K': map<int, seq<int>>, P': map<int, seq<int>>,
                   min: int, d: nat, ws: seq<int>)
    requires PushedState(ns0, R, L, K, P, min0, d0, vs)
    requires |ns| == |ns0| + 1 && LinksOnly(ns0, ns[..|ns0|]) && |ws| == |vs| + 1 && ws[..|vs|] == vs
    requires ns[|ns0|].value == ws[|vs|] && ns[|ns0|].degree == 0
    requires R' == R + [|ns0|] && L' == L + {|ns0|} && K' == K[|ns0| := []] && P' == P[|ns0| := [|ns0|]]
    requires d == d0 + 1
    requires d0 == 0 ==> min == |ns0|
    requires d0 > 0 ==> min == if ws[|vs|] < ns0[min0].value then |ns0| else min0
    ensures PushedState(ns, R', L', K', P', min, d, ws)
  {
    assert ws == vs + [ws[|vs|]];
    forall x | 0 <= x < |vs| ensures ns[x].degree == 0 && ns[x].value == ws[x] {
      assert ns[..|ns0|][x] == ns[x];
    }
  }

  /** One more push onto a heap of one-node trees: the `i`th of `vs`. */
  method PushOne(h: FibonacciHeap, vs: seq<int>, i: nat)
    requires i < |vs| && Pushed(h, vs[..i])
    modifies h
    ensures Pushed(h, vs[..i + 1])
  {
    ghost var ns0, R, L, K, P, min0, d0 := h.nodes, h.Roots, h.Live, h.Kids, h.Path, h.min, h.degree;
    var handle := h.Push(vs[i]);
    assert vs[..i + 1][..i] == vs[..i];
    PushedStep(ns0, R, L, K, P, min0, d0, vs[..i],
               h.nodes, h.Roots, h.Live, h.Kids, h.Path, h.min, h.degree, vs[..i + 1]);
  }

  /** Pushes `vs` in order into a new heap. */
  method PushAll(vs: seq<int>) returns (h: FibonacciHeap)
    ensures fresh(h) && Pushed(h, vs)
  {
    h := new FibonacciHeap();
    assert PushedState(h.nodes, h.Roots, h.Live, h.Kids, h.Path, h.min, h.degree, vs[..0]);
    for i := 0 to |vs|
      invariant fresh(h) && Pushed(h, vs[..i])
    {
      PushOne(h, vs, i);
    }
    assert vs[..|vs|] == vs;
  }

  /** Node by node, the arena `ns` holds the values `vs`. */
  ghost predicate Holds(ns: seq<Node>, vs: seq<int>)
  {
    |ns| == |vs| && forall x | 0 <= x < |vs| :: ns[x].value == vs[x]
  }

  /** A pop that moves no value keeps the values held. */
  lemma HoldsKept(ns0: seq<Node>, ns: seq<Node>, vs: seq<int>)
    requires Holds(ns0, vs) && SameValues(ns0, ns)
    ensures Holds(ns, vs)
  {
    forall x | 0 <= x < |vs| ensures ns[x].value == vs[x] {
      assert ns[x].value == ns0[x].value;
    }
  }

  /** `h` is a valid heap of `n >= 2` roots whose roots walked by `Pop`,
      `S`, fit the table, and whose trees below `S` are `T`. */
  ghost predicate Poppable(h: FibonacciHeap, n: nat, S: seq<int>, T: set<int>)
    reads h
  {
    && h.Valid() && h.degree == n >= 2
    && Survivors(h.Roots, h.Kids, h.min, n - 1) == S
    && Weight(h.nodes, S) < Pow2(FloorLog2(n - 1) + 1)
    && TreesOf(h.Live - {h.min}, Unhang(h.Path, h.min), Elems(S)) == T
  }

  /** A pop of a heap of `n >= 2` roots whose walked roots `S` fit the
      table completes, moves no value and leaves a valid heap owning
      exactly the trees `T` of those roots. */
  method PopOnce(h: FibonacciHeap, ghost n: nat, ghost S: seq<int>, ghost T: set<int>)
    returns (outcome: PopOutcome)
    requires h.Valid() && h.degree == n >= 2
    requires Survivors(h.Roots, h.Kids, h.min, n - 1) == S
    requires Weight(h.nodes, S) < Pow2(FloorLog2(n - 1) + 1)
    requires TreesOf(h.Live - {h.min}, Unhang(h.Path, h.min), Elems(S)) == T
    modifies h
    ensures outcome == Popped && h.Valid() && h.Live == T && SameValues(old(h.nodes), h.nodes)
    ensures |h.Roots| >= 1 && DegreesIncrease(h.nodes, h.Roots)
  {
    ghost var S' := Survivors(h.Roots, h.Kids, h.min, h.degree - 1);
    assert S' == S && Weight(h.nodes, S') < Pow2(FloorLog2(h.degree - 1) + 1);
    outcome := h.Pop();
    assert !outcome.EmptyHeap?;
    assert !outcome.TableOverflow?;
  }

  /** `PopOnce` on a poppable heap, with the values pushed kept. */
  method PopPushed(h: FibonacciHeap, ghost n: nat, ghost S: seq<int>, ghost T: set<int>, ghost vs: seq<int>)
    returns (outcome: PopOutcome)
    requires Poppable(h, n, S, T) && Holds(h.nodes, vs)
    modifies h
    ensures outcome == Popped && h.Valid() && h.Live == T && Holds(h.nodes, vs)
    ensures |h.Roots| >= 1 && DegreesIncrease(h.nodes, h.Roots)
  {
    ghost var ns0 := h.nodes;
    outcome := PopOnce(h, n, S, T);
    HoldsKept(ns0, h.nodes, vs);
  }

  /** `PopPushed` followed by `Top`: the top is a value pushed at one of
      the nodes `T` kept, and at most every value pushed at them. */
  method PopTop(h: FibonacciHeap, ghost n: nat, ghost S: seq<int>, ghost T: set<int>, ghost vs: seq<int>)
    returns (outcome: PopOutcome, top: Option<int>)
    requires Poppable(h, n, S, T) && Holds(h.nodes, vs) && T != {}
    modifies h
    ensures outcome == Popped && h.Valid() && h.Live == T && Holds(h.nodes, vs)
    ensures |h.Roots| >= 1 && DegreesIncrease(h.nodes, h.Roots)
    ensures top.Some? && (exists x | x in T :: 0 <= x < |vs| && vs[x] == top.value)
    ensures forall x | x in T && 0 <= x < |vs| :: top.value <= vs[x]
  {
    outcome := PopPushed(h, n, S, T, vs);
    h.MinIsLeast();
    top := h.Top();
    assert h.min in T && h.nodes[h.min].value == top.value;
  }

  /** After pushing 3, 4, 1, 6, 5, 2, `Pop` keeps the five roots after
      the minimum, of total weight 5, below the table's capacity 8, and
      every one of them stays live. */
  lemma SixPushedPop(ns: seq<Node>, R: seq<int>, L: set<int>, K: map<int, seq<int>>,
                     P: map<int, seq<int>>, min: int, d: nat, vs: seq<int>)
    requires PushedState(ns, R, L, K, P, min, d, vs) && vs == [3, 4, 1, 6, 5, 2]
    ensures d == 6
    ensures min == 2 && 2 in K
    ensures Survivors(R, K, min, 5) == [3, 4, 5, 0, 1]
    ensures Weight(ns, [3, 4, 5, 0, 1]) < Pow2(FloorLog2(5) + 1)
    ensures TreesOf(L - {min}, Unhang(P, min), Elems([3, 4, 5, 0, 1])) == {0, 1, 3, 4, 5}
  {
    SixLeast(vs);
    assert R == [0, 1, 2, 3, 4, 5];
    SixSurvivors(R, K);
    SixWeight(ns);
    SixTrees(L, P);
  }

  /** The first least of 3, 4, 1, 6, 5, 2 is at index 2. */
  lemma SixLeast(vs: seq<int>)
    requires vs == [3, 4, 1, 6, 5, 2]
    ensures LeastIndex(vs) == 2
  {
    assert LeastIndex(vs[..1]) == 0;
    assert LeastIndex(vs[..2]) == 0 by { assert vs[..2][..1] == vs[..1]; }
    assert LeastIndex(vs[..3]) == 2 by { assert vs[..3][..2] == vs[..2]; }
    assert LeastIndex(vs[..4]) == 2 by { assert vs[..4][..3] == vs[..3]; }
    assert LeastIndex(vs[..5]) == 2 by { assert vs[..5][..4] == vs[..4]; }
    assert vs[..6] == vs && vs[..5] == vs[..|vs| - 1];
  }

  /** The five roots after root 2, read round the ring, are walked. */
  lemma SixSurvivors(R: seq<int>, K: map<int, seq<int>>)
    requires R == [0, 1, 2, 3, 4, 5] && 2 in K && K[2] == []
    ensures Survivors(R, K, 2, 5) == [3, 4, 5, 0, 1]
  {
    assert R + K[2] == R;
    assert IndexOf(R, 2) == 2 by {
      assert R[..2] == [0, 1];
    }
  }

  /** Five one-node trees weigh 5, below the table's capacity 8. */
  lemma SixWeight(ns: seq<Node>)
    requires |ns| == 6 && forall x | 0 <= x < 6 :: ns[x].degree == 0
    ensures Weight(ns, [3, 4, 5, 0, 1]) < Pow2(FloorLog2(5) + 1)
  {
    assert Weight(ns, [3]) == 1 by { assert [3][..0] == []; }
    assert Weight(ns, [3, 4]) == 2 by { assert [3, 4][..1] == [3]; }
    assert Weight(ns, [3, 4, 5]) == 3 by { assert [3, 4, 5][..2] == [3, 4]; }
    assert Weight(ns, [3, 4, 5, 0]) == 4 by { assert [3, 4, 5, 0][..3] == [3, 4, 5]; }
    assert Weight(ns, [3, 4, 5, 0, 1]) == 5 by { assert [3, 4, 5, 0, 1][..4] == [3, 4, 5, 0]; }
    assert FloorLog2(5) == 2;
    assert Pow2(3) == 8;
  }

  /** With only one-node trees, the trees of the walked roots are those roots. */
  lemma SixTrees(L: set<int>, P: map<int, seq<int>>)
    requires (forall x :: x in L <==> 0 <= x < 6) && P.Keys == L && (forall x | x in P :: P[x] == [x])
    ensures TreesOf(L - {2}, Unhang(P, 2), Elems([3, 4, 5, 0, 1])) == {0, 1, 3, 4, 5}
  {
    var U := Unhang(P, 2);
    assert forall y | y in U :: U[y] == [y];
  }

  /** The heap left by pushing 3, 4, 1, 6, 5, 2. */
  method PushedSix() returns (h: FibonacciHeap)
    ensures fresh(h) && Poppable(h, 6, [3, 4, 5, 0, 1], {0, 1, 3, 4, 5}) && Holds(h.nodes, [3, 4, 1, 6, 5, 2])
  {
    var vs := [3, 4, 1, 6, 5, 2];
    h := PushAll(vs);
    SixPushedPop(h.nodes, h.Roots, h.Live, h.Kids, h.Path, h.min, h.degree, vs);
  }

  /** The least of 3, 4, 6, 5, 2, pushed at nodes 0, 1, 3, 4, 5, is 2. */
  lemma SecondLeast(vs: seq<int>, T: set<int>, r: int)
    requires vs == [3, 4, 1, 6, 5, 2] && T == {0, 1, 3, 4, 5}
    requires (exists x | x in T :: 0 <= x < |vs| && vs[x] == r) && (forall x | x in T && 0 <= x < |vs| :: r <= vs[x])
    ensures r == 2
  {
    assert r <= vs[5];
  }

  /** Popping removes the least value: after six pushes and a pop the top
      is the second least. */
  method PushSixPop() returns (outcome: PopOutcome, top: Option<int>)
    ensures outcome == Popped && top == Some(2)
  {
    var h := PushedSix();
    ghost var vs, T := [3, 4, 1, 6, 5, 2], {0, 1, 3, 4, 5};
    outcome, top := PopTop(h, 6, [3, 4, 5, 0, 1], T, vs);
    SecondLeast(vs, T, top.value);
  }

  /** After pushing 1, 2, 3, `Pop` keeps the two roots after the minimum,
      of total weight 2, below the table's capacity 4, and both stay
      live. */
  lemma ThreePushedPop(ns: seq<Node>, R: seq<int>, L: set<int>, K: map<int, seq<int>>,
                       P: map<int, seq<int>>, min: int, d: nat, vs: seq<int>)
    requires PushedState(ns, R, L, K, P, min, d, vs) && vs == [1, 2, 3]
    ensures d == 3
    ensures min == 0 && 0 in K
    ensures Survivors(R, K, min, 2) == [1, 2]
    ensures Weight(ns, [1, 2]) < Pow2(FloorLog2(2) + 1)
    ensures TreesOf(L - {min}, Unhang(P, min), Elems([1, 2])) == {1, 2}
  {
    LeastIndexPrefix(vs, 3);
    assert vs[..3] == vs;
    assert R == [0, 1, 2];
    assert R + K[0] == R;
    assert IndexOf(R, 0) == 0;
    assert Weight(ns, [1]) == 1 by { assert [1][..0] == []; }
    assert Weight(ns, [1, 2]) == 2 by { assert [1, 2][..1] == [1]; }
    assert FloorLog2(2) == 1;
    assert Pow2(2) == 4;
    var U := Unhang(P, 0);
    assert forall y | y in U :: U[y] == [y];
  }

  /** The heap left by pushing 1, 2, 3. */
  method PushedThree() returns (h: FibonacciHeap)
    ensures fresh(h) && Poppable(h, 3, [1, 2], {1, 2}) && Holds(h.nodes, [1, 2, 3])
  {
    var vs := [1, 2, 3];
    h := PushAll(vs);
    ThreePushedPop(h.nodes, h.Roots, h.Live, h.Kids, h.Path, h.min, h.degree, vs);
  }

  /** The least of 2 and 3, pushed at nodes 1 and 2, is 2. */
  lemma LeastOfTwo(vs: seq<int>, T: set<int>, r: int)
    requires vs == [1, 2, 3] && T == {1, 2}
    requires (exists x | x in T :: 0 <= x < |vs| && vs[x] == r) && (forall x | x in T && 0 <= x < |vs| :: r <= vs[x])
    ensures r == 2
  {
    assert r <= vs[1];
  }

  /** A live node of positive degree has a live first child below it. */
  lemma FirstChild(ns: seq<Node>, L: set<int>, K: map<int, seq<int>>, P: map<int, seq<int>>, x: int)
    requires ForestOk(ns, L, K, P) && x in L
    ensures 0 <= x < |ns| && (ns[x].degree > 0 ==> x in K && |K[x]| > 0 && K[x][0] in L && 0 <= K[x][0] < |ns| && ns[K[x][0]].parent == x)
  {
    assert LiveOk(ns, L, K, P, x);
  }

  /** Two live nodes, roots of increasing degree: the last root would have
      a child, which could only be the other root, so one root is left. */
  lemma TwoLiveOneRoot(ns: seq<Node>, roots: int, min: int, degree: nat, R: seq<int>,
                       L: set<int>, K: map<int, seq<int>>, P: map<int, seq<int>>)
    requires ForestOk(ns, L, K, P) && RootRingOk(ns, roots, min, degree, R, L)
    requires DegreesIncrease(ns, R) && |R| >= 1 && L == {1, 2}
    ensures degree == 1
  {
    FirstChild(ns, L, K, P, R[|R| - 1]);
    assert R[0] in L && ns[R[0]].parent == NIL;
  }

  /** A pop of a heap owning nodes 1 and 2 in roots of increasing degree
      completes and leaves the heap reporting itself empty. */
  method PopLast(h: FibonacciHeap) returns (outcome: PopOutcome, empty: bool)
    requires h.Valid() && h.Live == {1, 2} && |h.Roots| >= 1 && DegreesIncrease(h.nodes, h.Roots)
    modifies h
    ensures outcome == Popped && empty
  {
    TwoLiveOneRoot(h.nodes, h.roots, h.min, h.degree, h.Roots, h.Live, h.Kids, h.Path);
    outcome := h.Pop();
    empty := h.Empty();
  }

  /** Push 1, 2, 3 and pop: the first pop links 3 below 2, leaving one
      root that has a child. The second pop promotes that child but does
      not count it, so the heap reports itself empty though 3 was never
      popped. */
  method LostChild() returns (first: PopOutcome, top: Option<int>, second: PopOutcome, empty: bool)
    ensures first == Popped && top == Some(2)
    ensures second == Popped && empty
  {
    var h := PushedThree();
    ghost var vs, T := [1, 2, 3], {1, 2};
    first, top := PopTop(h, 3, [1, 2], T, vs);
    LeastOfTwo(vs, T, top.value);
    second, empty := PopLast(h);
  }

  /** After pushing 1 to 8, `Pop` keeps the seven roots after the
      minimum, of total weight 7, below the table's capacity 8, and all of
      them stay live. */
  lemma EightPushedPop(ns: seq<Node>, R: seq<int>, L: set<int>, K: map<int, seq<int>>,
                       P: map<int, seq<int>>, min: int, d: nat, vs: seq<int>)
    requires PushedState(ns, R, L, K, P, min, d, vs) && vs == [1, 2, 3, 4, 5, 6, 7, 8]
    ensures d == 8
    ensures min == 0 && 0 in K
    ensures Survivors(R, K, min, 7) == [1, 2, 3, 4, 5, 6, 7]
    ensures Weight(ns, [1, 2, 3, 4, 5, 6, 7]) < Pow2(FloorLog2(7) + 1)
    ensures TreesOf(L - {min}, Unhang(P, min), Elems([1, 2, 3, 4, 5, 6, 7])) == {1, 2, 3, 4, 5, 6, 7}
  {
    var vs := [1, 2, 3, 4, 5, 6, 7, 8];
    LeastIndexPrefix(vs, 8);
    assert vs[..8] == vs;
    assert R == [0, 1, 2, 3, 4, 5, 6, 7];
    EightSurvivors(R, K);
    EightWeight(ns);
    var U := Unhang(P, 0);
    assert forall y | y in U :: U[y] == [y];
  }

  /** The seven roots after root 0 are walked. */
  lemma EightSurvivors(R: seq<int>, K: map<int, seq<int>>)
    requires R == [0, 1, 2, 3, 4, 5, 6, 7] && 0 in K && K[0] == []
    ensures Survivors(R, K, 0, 7) == [1, 2, 3, 4, 5, 6, 7]
  {
    assert R + K[0] == R;
    assert IndexOf(R, 0) == 0;
  }

  /** Seven one-node trees weigh 7, below the table's capacity 8. */
  lemma EightWeight(ns: seq<Node>)
    requires |ns| == 8 && forall x | 0 <= x < 8 :: ns[x].degree == 0
    ensures Weight(ns, [1, 2, 3, 4, 5, 6, 7]) < Pow2(FloorLog2(7) + 1)
  {
    var S := [1, 2, 3, 4, 5, 6, 7];
    UnitWeights(ns, S, 7);
    assert S[..7] == S;
    assert FloorLog2(7) == 2;
    assert Pow2(3) == 8;
  }

  /** In an increasing run, the first value stays the first least. */
  lemma {:induction false} LeastIndexPrefix(vs: seq<int>, n: int)
    requires 1 <= n <= |vs| && forall i, j | 0 <= i < j < |vs| :: vs[i] < vs[j]
    ensures LeastIndex(vs[..n]) == 0
  {
    if n > 1 {
      LeastIndexPrefix(vs, n - 1);
      assert vs[..n][..n - 1] == vs[..n - 1];
    }
  }

  /** One-node trees weigh one each. */
  lemma {:induction false} UnitWeights(ns: seq<Node>, s: seq<int>, n: int)
    requires 0 <= n <= |s| && forall i | 0 <= i < |s| :: 0 <= s[i] < |ns| && ns[s[i]].degree == 0
    ensures Weight(ns, s[..n]) == n
  {
    if n > 0 {
      UnitWeights(ns, s, n - 1);
      assert s[..n][..n - 1] == s[..n - 1];
    }
  }

  /** The heap left by pushing 1 to 8. */
  method PushedEight() returns (h: FibonacciHeap)
    ensures fresh(h) && Poppable(h, 8, [1, 2, 3, 4, 5, 6, 7], {1, 2, 3, 4, 5, 6, 7})
    ensures Holds(h.nodes, [1, 2, 3, 4, 5, 6, 7, 8])
  {
    var vs := [1, 2, 3, 4, 5, 6, 7, 8];
    h := PushAll(vs);
    EightPushedPop(h.nodes, h.Roots, h.Live, h.Kids, h.Path, h.min, h.degree, vs);
  }

  /** Push 1 to 8 and pop: a valid heap whose live nodes are the seven
      pushed after the minimum, holding 2 to 8. */
  method PushEightPop() returns (h: FibonacciHeap)
    ensures fresh(h) && h.Valid() && h.degree > 0 && h.Live == {1, 2, 3, 4, 5, 6, 7}
    ensures Holds(h.nodes, [1, 2, 3, 4, 5, 6, 7, 8])
  {
    h := PushedEight();
    var outcome := PopPushed(h, 8, [1, 2, 3, 4, 5, 6, 7], {1, 2, 3, 4, 5, 6, 7}, [1, 2, 3, 4, 5, 6, 7, 8]);
    h.MinIsLeast();
  }

  /** The `Update` test: push 1 to 8 and pop, then lower the node that
      holds 6 to 3: the top stays 2, since 2 is still live. Lower the node
      that holds 7 to 1: the top becomes 1. */
  method UpdateTwice() returns (top1: Option<int>, top2: Option<int>)
    ensures top1 == Some(2) && top2 == Some(1)
  {
    var h := PushEightPop();
    top1 := LowerToThree(h);
    top2 := LowerToOne(h);
  }

  /** On the heap `PushEightPop` leaves, lowering node 5 from 6 to 3 keeps
      2 as the least live value, and every value stays at least 1. */
  method LowerToThree(h: FibonacciHeap) returns (top: Option<int>)
    requires h.Valid() && h.degree > 0 && h.Live == {1, 2, 3, 4, 5, 6, 7}
    requires Holds(h.nodes, [1, 2, 3, 4, 5, 6, 7, 8])
    modifies h
    ensures h.Shaped() && h.degree > 0 && |h.nodes| == 8
    ensures forall x | 0 <= x < 8 :: h.nodes[x].value >= 1
    ensures top == Some(2)
  {
    ghost var ns0 := h.nodes;
    ghost var lifted, stop := h.Update(5, 3);
    ExitedValues(ns0[5 := ns0[5].(value := 3)], h.nodes, h.roots, 5, lifted, stop);
    ThreeValues(ns0, h.nodes);
    LeastIsTwo(h.nodes, h.Live, h.min);
    top := h.Top();
  }

  /** With node 5 lowered to 3, the least value among nodes 1 to 7 is 2. */
  lemma LeastIsTwo(ns: seq<Node>, L: set<int>, min: int)
    requires |ns| == 8 && forall x | 0 <= x < 8 :: ns[x].value == if x == 5 then 3 else x + 1
    requires L == {1, 2, 3, 4, 5, 6, 7} && min in L
    requires forall x | x in L :: ns[min].value <= ns[x].value
    ensures ns[min].value == 2
  {
    assert 1 in L;
  }

  /** Node `x` of the popped heap holds `x + 1` except node 5, lowered to 3. */
  lemma ThreeValues(ns0: seq<Node>, ns: seq<Node>)
    requires Holds(ns0, [1, 2, 3, 4, 5, 6, 7, 8])
    requires |ns| == 8 && forall x | 0 <= x < 8 :: ns[x].value == ns0[5 := ns0[5].(value := 3)][x].value
    ensures forall x | 0 <= x < 8 :: ns[x].value == if x == 5 then 3 else x + 1
  {
    forall x | 0 <= x < 8 ensures ns[x].value == if x == 5 then 3 else x + 1 {
      assert ns0[x].value == [1, 2, 3, 4, 5, 6, 7, 8][x];
    }
  }

  /** Lowering node 6 to 1 while every value is at least 1 makes the top 1,
      whether or not the heap is still valid. */
  method LowerToOne(h: FibonacciHeap) returns (top: Option<int>)
    requires h.Shaped() && h.degree > 0 && |h.nodes| == 8
    requires forall x | 0 <= x < 8 :: h.nodes[x].value >= 1
    modifies h
    ensures top == Some(1)
  {
    ghost var ns0 := h.nodes;
    ghost var lifted, stop := h.Update(6, 1);
    ExitedValues(ns0[6 := ns0[6].(value := 1)], h.nodes, h.roots, 6, lifted, stop);
    top := h.Top();
  }
}
