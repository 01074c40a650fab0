/** The `FibonacciHeap<T>` class with `T = int`: a ring of root trees, a
    cached minimum root and the number of roots, over an arena of nodes. */
module Heap {
  import opened Nodes
  import opened Forest
  import opened Consolidation
  import opened Steps
  import opened Sweep
  import opened Cuts

  /** How `Pop` ends. `TableOverflow` is the call that indexes the
      consolidation table past its end, which the source leaves undefined. */
  datatype PopOutcome = Popped | EmptyHeap | TableOverflow(index: nat, size: nat)

  datatype Option<T> = None | Some(value: T)

  class FibonacciHeap {
    var nodes: seq<Node>
    var roots: int
    var min: int
    var degree: nat

    /** The root ring in `next` order from `roots`. */
    ghost var Roots: seq<int>
    /** The nodes the heap owns. */
    ghost var Live: set<int>
    /** Each live node's children ring. */
    ghost var Kids: map<int, seq<int>>
    /** Each live node's path from its tree's root. */
    ghost var Path: map<int, seq<int>>

    /** Every pointer the heap or a node holds stays inside the arena. */
    ghost predicate Shaped()
      reads this
    {
      && Shape(nodes)
      && IsPtr(nodes, roots) && IsPtr(nodes, min)
      && (degree > 0 ==> IsAddr(nodes, roots) && IsAddr(nodes, min))
    }

    /** The heap is a forest of heap-ordered trees, its roots form the ring
        that `roots` enters, `degree` counts them and `min` is a least one. */
    ghost predicate Valid()
      reads this
    {
      && Shaped()
      && ForestOk(nodes, Live, Kids, Path)
      && RootRingOk(nodes, roots, min, degree, Roots, Live)
    }

    /** The heap is a forest whose roots all sit in the ring `Roots`
        entered at `roots`, with `min` a least root, while `degree` may
        count fewer roots than the ring holds. */
    ghost predicate Rooted()
      reads this
    {
      && Shaped()
      && ForestOk(nodes, Live, Kids, Path)
      && RootRingOk(nodes, roots, min, |Roots|, Roots, Live)
    }

    constructor ()
      ensures Valid() && Live == {} && Roots == [] && Kids == map[] && Path == map[]
      ensures nodes == [] && roots == NIL && min == NIL && degree == 0
    {
      nodes, roots, min, degree := [], NIL, NIL, 0;
      Roots, Live, Kids, Path := [], {}, map[], map[];
    }

    /** `i->prev = p`. */
    method SetPrev(i: int, p: int)
      requires Shaped() && IsAddr(nodes, i) && IsAddr(nodes, p)
      modifies this`nodes
      ensures Shaped()
      ensures nodes == old(nodes)[i := old(nodes)[i].(prev := p)]
    {
      assert NodeShape(nodes, i);
      ShapeUpdate(nodes, i, nodes[i].(prev := p));
      nodes := nodes[i := nodes[i].(prev := p)];
    }

    /** `i->next = n`. */
    method SetNext(i: int, n: int)
      requires Shaped() && IsAddr(nodes, i) && IsAddr(nodes, n)
      modifies this`nodes
      ensures Shaped()
      ensures nodes == old(nodes)[i := old(nodes)[i].(next := n)]
    {
      assert NodeShape(nodes, i);
      ShapeUpdate(nodes, i, nodes[i].(next := n));
      nodes := nodes[i := nodes[i].(next := n)];
    }

    /** The roots threaded so far by `Rebuild`, in order: an open chain
        entered at `roots`, counted by `degree`, with `min` the first of
        its least-valued members. */
    ghost predicate Threaded(s: seq<int>)
      reads this
    {
      && Chain(nodes, s) && degree == |s|
      && (s == [] ==> roots == NIL && min == NIL)
      && (s != [] ==> roots == s[0] && nodes[roots].prev == s[|s| - 1] && FirstLeast(nodes, s, min))
    }

    /** Lines 149-166, for one occupied slot holding `node`. */
    method Thread(ghost s: seq<int>, node: int)
      requires Shaped() && Threaded(s) && IsAddr(nodes, node) && Distinct(s + [node])
      modifies this`nodes, this`roots, this`min, this`degree
      ensures Shaped() && Threaded(s + [node]) && LinksOnly(old(nodes), nodes)
      ensures forall x | 0 <= x < |nodes| && x !in s && x != node :: nodes[x] == old(nodes[x])
    {
      if degree == 0 {
        SetPrev(node, node);
        roots := node;
        min := node;
      } else {
        ThreadAfter(s, node);
      }
      degree := degree + 1;
    }

    /** Lines 155-162: `node` is hooked in after the last threaded root
        and becomes `min` only when strictly below it. */
    method ThreadAfter(ghost s: seq<int>, node: int)
      requires Shaped() && Threaded(s) && degree > 0 && IsAddr(nodes, node) && Distinct(s + [node])
      modifies this`nodes, this`min
      ensures Shaped() && LinksOnly(old(nodes), nodes)
      ensures s + [node] != [] && roots == (s + [node])[0] && nodes[roots].prev == node
      ensures Chain(nodes, s + [node]) && FirstLeast(nodes, s + [node], min)
      ensures forall x | 0 <= x < |nodes| && x !in s && x != node :: nodes[x] == old(nodes[x])
    {
      ChainSnoc(nodes, s, node);
      ghost var ns0 := nodes;
      SetPrev(node, nodes[roots].prev);
      SetNext(nodes[roots].prev, node);
      SetPrev(roots, node);
      FirstLeastFrame(ns0, nodes, s, min);
      FirstLeastSnoc(nodes, s, min, node);
      if nodes[node].value < nodes[min].value {
        min := node;
      }
    }

    /** Lines 146-169: the occupied table slots, in slot order, are threaded
        into a new closed root ring entered at the first of them; `degree`
        counts them, and `min` is the first of the least-valued ones. Only
        the ring links of the threaded nodes change. */
    method Rebuild(table: seq<int>)
      requires Shaped() && degree == 0 && TableOk(nodes, table) && Present(table) != []
      modifies this`nodes, this`roots, this`min, this`degree
      ensures Shaped() && LinksOnly(old(nodes), nodes)
      ensures Ring(nodes, Present(table)) && degree == |Present(table)| && roots == Present(table)[0]
      ensures FirstLeast(nodes, Present(table), min)
      ensures forall x | 0 <= x < |nodes| && x !in Present(table) :: nodes[x] == old(nodes[x])
    {
      ThreadAll(table);
      ghost var s := Present(table);
      PresentDistinct(old(nodes), table);
      ChainClose(nodes, s);
      var last := nodes[roots].prev;
      ghost var ns0 := nodes;
      SetNext(last, roots);
      FirstLeastFrame(ns0, nodes, s, min);
    }

    /** Lines 146-166: the loop over the table, leaving the occupied slots
        threaded as an open chain from `roots`. */
    method ThreadAll(table: seq<int>)
      requires Shaped() && TableOk(nodes, table)
      modifies this`nodes, this`roots, this`min, this`degree
      ensures Shaped() && LinksOnly(old(nodes), nodes) && Threaded(Present(table))
      ensures forall x | 0 <= x < |nodes| && x !in Present(table) :: nodes[x] == old(nodes[x])
    {
      roots, min, degree := NIL, NIL, 0;
      for i := 0 to |table|
        invariant Shaped() && LinksOnly(old(nodes), nodes) && Threaded(Present(table[..i]))
        invariant forall x | 0 <= x < |nodes| && x !in Present(table[..i]) :: nodes[x] == old(nodes[x])
      {
        ThreadSlot(old(nodes), table, i);
      }
      assert table[..|table|] == table;
    }

    /** One turn of lines 146-166: slot `i`, when occupied, joins the chain
        threaded from the slots before it. */
    method ThreadSlot(ghost ns0: seq<Node>, table: seq<int>, i: int)
      requires Shaped() && TableOk(ns0, table) && 0 <= i < |table|
      requires LinksOnly(ns0, nodes) && Threaded(Present(table[..i]))
      requires forall x | 0 <= x < |nodes| && x !in Present(table[..i]) :: nodes[x] == ns0[x]
      modifies this`nodes, this`roots, this`min, this`degree
      ensures Shaped() && LinksOnly(ns0, nodes) && Threaded(Present(table[..i + 1]))
      ensures forall x | 0 <= x < |nodes| && x !in Present(table[..i + 1]) :: nodes[x] == ns0[x]
    {
      PresentPrefix(ns0, table, i);
      ghost var s := Present(table[..i]);
      if table[i] != NIL {
        ghost var ns := nodes;
        Thread(s, table[i]);
        LinksOnlyTrans(ns0, ns, nodes);
        assert Present(table[..i + 1]) == s + [table[i]];
      } else {
        assert Present(table[..i + 1]) == s;
      }
    }

    /** Lines 89-92: walk `min`'s children ring once, clearing each
        child's parent and counting `min`'s degree down to zero. */
    method CutChildren(ghost C: seq<int>, ghost ok: bool)
      requires Shaped() && degree > 0
      requires ok ==> Ring(nodes, C) && |C| == nodes[min].degree && |C| > 0 && min !in C && nodes[min].children == C[0]
      modifies this`nodes
      ensures Shaped() && |nodes| == old(|nodes|) && nodes[min].degree == 0
      ensures old(nodes[min].degree) > 0 ==> IsAddr(nodes, nodes[min].children)
      ensures forall x | 0 <= x < |nodes| ::
        nodes[x].value == old(nodes[x].value) && (x != min ==> nodes[x].degree == old(nodes[x].degree))
      ensures ok ==> CutSoFar(old(nodes), nodes, min, C, |C|)
    {
      ghost var d := nodes[min].degree;
      ghost var ns0 := nodes;
      assert NodeShape(nodes, min);
      while nodes[min].degree > 0
        invariant Shaped() && |nodes| == |ns0| && nodes[min].degree <= d
        invariant d > 0 ==> IsAddr(nodes, nodes[min].children)
        invariant forall x | 0 <= x < |nodes| ::
          nodes[x].value == ns0[x].value && (x != min ==> nodes[x].degree == ns0[x].degree)
        invariant ok ==> CutSoFar(ns0, nodes, min, C, d - nodes[min].degree)
        decreases nodes[min].degree
      {
        if ok {
          CutStepNext(ns0, nodes, min, C, d - nodes[min].degree);
        }
        nodes := CutStep(nodes, min);
        assert NodeShape(nodes, min);
      }
    }

    /** Lines 94-96: the children ring, entered at `min->children`, is
        hooked in after the last root. */
    method JoinKids()
      requires Shaped() && degree > 0 && IsAddr(nodes, nodes[min].children)
      modifies this`nodes
      ensures Shaped() && nodes == JoinRings(old(nodes), roots, old(nodes[min].children))
    {
      nodes := JoinRings(nodes, roots, nodes[min].children);
    }

    /** Lines 88-96 when `min` has children: they lose their parent and
        their ring joins the root ring; `ns1` is the arena in between. */
    method CutAndJoin(ghost C: seq<int>, ghost ok: bool) returns (ghost ns1: seq<Node>)
      requires Shaped() && degree > 0 && nodes[min].degree > 0
      requires ok ==> Ring(nodes, C) && |C| == nodes[min].degree && |C| > 0 && min !in C && nodes[min].children == C[0]
      modifies this`nodes
      ensures Shaped() && |nodes| == old(|nodes|) && nodes[min].degree == 0
      ensures forall x | 0 <= x < |nodes| ::
        nodes[x].value == old(nodes[x].value) && (x != min ==> nodes[x].degree == old(nodes[x].degree))
      ensures |ns1| == |nodes| && Shape(ns1) && IsAddr(ns1, roots) && IsAddr(ns1, ns1[min].children)
      ensures nodes == JoinRings(ns1, roots, ns1[min].children)
      ensures ok ==> CutSoFar(old(nodes), ns1, min, C, |C|)
    {
      CutChildren(C, ok);
      ns1 := nodes;
      JoinKids();
    }

    /** Lines 88-99: `min`'s children lose their parent and join the root
        ring after its last member. `degree` is increased by `min`'s
        degree only after that has been counted down to zero, so it does
        not count the promoted children. */
    method PromoteChildren(ghost valid: bool, ghost R: seq<int>, ghost K: map<int, seq<int>>, ghost P: map<int, seq<int>>)
      requires Shaped() && degree > 0
      requires valid ==> ForestOk(nodes, Live, K, P) && RootRingOk(nodes, roots, min, degree, R, Live)
      modifies this`nodes, this`degree
      ensures degree == old(degree)
      ensures Shaped() && |nodes| == old(|nodes|) && nodes[min].degree == 0
      ensures forall x | 0 <= x < |nodes| ::
        nodes[x].value == old(nodes[x].value) && (x != min ==> nodes[x].degree == old(nodes[x].degree))
      ensures valid ==> min in K && ForestOk(nodes, Live, K[min := []], Unhang(P, min))
      ensures valid ==> RootRingOk(nodes, roots, min, |R + K[min]|, R + K[min], Live)
    {
      ghost var C: seq<int> := [];
      if valid {
        MinKids(nodes, roots, min, degree, R, Live, K, P);
        C := K[min];
      }
      ghost var ns0, ns1 := nodes, nodes;
      if nodes[min].degree > 0 {
        ns1 := CutAndJoin(C, valid);
      }
      degree := degree + nodes[min].degree;
      if valid {
        PromoteAll(ns0, ns1, nodes, roots, min, degree, R, Live, K, P);
      }
    }

    /** Lines 107-112: with more than one root counted, `roots` moves on
        to `min`'s successor, `min` leaves the root ring and the count
        drops by one. */
    method UnlinkMin()
      requires Shaped() && degree > 1
      modifies this`nodes, this`roots, this`degree
      ensures Shaped() && degree == old(degree) - 1 && min == old(min)
      ensures roots == old(nodes[min].next) && nodes == Unlink(old(nodes), min)
      ensures SameValues(old(nodes), nodes)
    {
      assert NodeShape(nodes, min);
      roots := nodes[min].next;
      nodes := Unlink(nodes, min);
      degree := degree - 1;
    }

    /** Lines 119-141: while the slot for `current`'s degree is inside the
        table and occupied, `current` is linked with the root held there
        (the smaller value, `current` on a tie, becomes the parent and is
        carried on) and the slot is cleared. Ends with `current` at a free
        slot or past the table's end. */
    method Carry(ghost ok: bool, ghost ns0: seq<Node>, ghost S: seq<int>, ghost L: set<int>,
                 ghost P0: map<int, seq<int>>, ghost j: int,
                 table0: seq<int>, current0: int, ghost K0: map<int, seq<int>>, ghost Q0: map<int, seq<int>>)
      returns (table: seq<int>, current: int, ghost K: map<int, seq<int>>, ghost P: map<int, seq<int>>)
      requires Shaped() && TableOk(nodes, table0) && IsAddr(nodes, current0)
      requires ok ==> Carrying(ns0, S, L, P0, nodes, table0, K0, Q0, j, current0)
      modifies this`nodes
      ensures Shaped() && |nodes| == old(|nodes|) && |table| == |table0|
      ensures TableOk(nodes, table) && IsAddr(nodes, current)
      ensures nodes[current].degree < |table| ==> table[nodes[current].degree] == NIL
      ensures forall x | 0 <= x < |nodes| :: nodes[x].value == old(nodes[x].value)
      ensures ok ==> Carrying(ns0, S, L, P0, nodes, table, K, P, j, current)
    {
      table, current, K, P := table0, current0, K0, Q0;
      while nodes[current].degree < |table| && table[nodes[current].degree] != NIL
        invariant Shaped() && |nodes| == old(|nodes|) && |table| == |table0|
        invariant TableOk(nodes, table) && IsAddr(nodes, current)
        invariant forall x | 0 <= x < |nodes| :: nodes[x].value == old(nodes[x].value)
        invariant ok ==> Carrying(ns0, S, L, P0, nodes, table, K, P, j, current)
        decreases |table| - nodes[current].degree
      {
        var c, o := current, table[nodes[current].degree];
        if nodes[o].value < nodes[c].value {
          c, o := o, c;
        }
        if ok {
          WalkLink(ns0, S, L, P0, nodes, table, K, P, j, current, c, o);
          K, P := K[c := K[c] + [o]], Hang(P, o, c);
        }
        LinkTableOk(nodes, table, c, o);
        table := table[nodes[c].degree := NIL];
        nodes := Link(nodes, c, o);
        current := c;
      }
    }

    /** Lines 117-143, one turn of the outer loop: the root at `roots` is
        taken, `roots` moves on to its successor, and the root is carried
        up the table until it settles in a free slot; or the carry
        reaches the end of the table, and `overflow` is the degree that
        indexes past it. */
    method Settle(ghost ok: bool, ghost ns0: seq<Node>, ghost S: seq<int>, ghost L: set<int>,
                  ghost P0: map<int, seq<int>>, ghost j: int,
                  table0: seq<int>, ghost K0: map<int, seq<int>>, ghost Q0: map<int, seq<int>>)
      returns (table: seq<int>, slot: nat, overflow: bool, ghost K: map<int, seq<int>>, ghost P: map<int, seq<int>>)
      requires Shaped() && degree > 0 && TableOk(nodes, table0)
      requires ok ==> Turn(ns0, S, L, P0, nodes, table0, K0, Q0, j, degree, roots)
      modifies this`nodes, this`roots
      ensures Shaped() && |nodes| == old(|nodes|) && |table| == |table0| && TableOk(nodes, table)
      ensures forall x | 0 <= x < |nodes| :: nodes[x].value == old(nodes[x].value)
      ensures overflow ==> slot >= |table|
      ensures !overflow ==> slot < |table| && table[slot] != NIL
      ensures ok && overflow ==> Weight(ns0, S) >= Pow2(|table|)
      ensures ok && !overflow ==> Turn(ns0, S, L, P0, nodes, table, K, P, j + 1, degree - 1, roots)
    {
      var current := roots;
      assert NodeShape(nodes, roots);
      roots := nodes[roots].next;
      if ok {
        WalkTake(ns0, S, L, P0, nodes, table0, K0, Q0, j);
        if j + 1 < |S| {
          assert roots == ns0[S[j]].next == S[j + 1];
        }
      }
      table, current, K, P := Carry(ok, ns0, S, L, P0, j, table0, current, K0, Q0);
      if nodes[current].degree >= |table| {
        if ok {
          WalkOverflow(ns0, S, L, P0, nodes, table, K, P, j, current, |S|);
          assert S[..|S|] == S;
        }
        return table, nodes[current].degree, true, K, P;
      }
      if ok {
        WalkPlace(ns0, S, L, P0, nodes, table, K, P, j, current);
      }
      slot := nodes[current].degree;
      table := table[slot := current];
      overflow := false;
    }

    /** Lines 114-144: each counted root, from `roots` on in ring order,
        is carried up the degree table, linking it with the root of equal
        degree held there (the smaller value, `current` on a tie, becomes
        the parent) until it reaches a free slot. The table has
        `floor(log2(degree)) + 1` slots; a carry whose degree reaches the
        end of the table stops with `TableOverflow`. When the counted
        roots are exactly the ring `S` of a forest, nothing is lost, the
        table holds every tree root once, and the overflow happens exactly
        when the ring weighs at least `2^|table|`. */
    method Consolidate(ghost ok: bool, ghost S: seq<int>, ghost L: set<int>,
                       ghost K0: map<int, seq<int>>, ghost P0: map<int, seq<int>>)
      returns (table: seq<int>, outcome: PopOutcome, ghost K: map<int, seq<int>>, ghost P: map<int, seq<int>>)
      requires Shaped() && degree > 0
      requires ok ==> && Chain(nodes, S) && Distinct(S) && |S| == degree && roots == S[0]
                      && RootsOf(nodes, S, L) && ForestOk(nodes, L, K0, P0)
      modifies this`nodes, this`roots, this`degree
      ensures Shaped() && |nodes| == old(|nodes|) && |table| == FloorLog2(old(degree)) + 1
      ensures forall x | 0 <= x < |nodes| :: nodes[x].value == old(nodes[x].value)
      ensures outcome.Popped? || outcome.TableOverflow?
      ensures outcome.Popped? ==> degree == 0 && TableOk(nodes, table) && Present(table) != []
      ensures outcome.TableOverflow? ==> outcome.size == |table| <= outcome.index
      ensures ok ==> (outcome.TableOverflow? <==> Weight(old(nodes), S) >= Pow2(|table|))
      ensures ok && outcome.Popped? ==>
        && ForestOk(nodes, L, K, P) && Distinct(Present(table))
        && RootsOf(nodes, Present(table), L)
    {
      ghost var ns0 := nodes;
      table := seq(FloorLog2(degree) + 1, _ => NIL);
      if ok {
        WalkStart(ns0, S, L, K0, P0, table, roots);
      }
      var last, overflow;
      ghost var j;
      table, last, overflow, K, P, j := Walk(ok, ns0, S, L, P0, table, K0, P0);
      if overflow {
        return table, TableOverflow(last, |table|), K, P;
      }
      outcome := Popped;
      PresentNonEmpty(table, last);
      if ok {
        WalkEnd(ns0, S, L, K0, P0, nodes, table, K, P, j, roots);
      }
    }

    /** Lines 114-145: the outer loop, one turn per counted root, until
        `degree` reaches zero or a carry runs off the table. */
    method Walk(ghost ok: bool, ghost ns0: seq<Node>, ghost S: seq<int>, ghost L: set<int>,
                ghost P0: map<int, seq<int>>, table0: seq<int>, ghost K0: map<int, seq<int>>, ghost Q0: map<int, seq<int>>)
      returns (table: seq<int>, last: nat, overflow: bool,
               ghost K: map<int, seq<int>>, ghost P: map<int, seq<int>>, ghost j: int)
      requires Shaped() && degree > 0 && TableOk(nodes, table0)
      requires ok ==> Turn(ns0, S, L, P0, nodes, table0, K0, Q0, 0, degree, roots)
      modifies this`nodes, this`roots, this`degree
      ensures Shaped() && |nodes| == old(|nodes|) && |table| == |table0| && TableOk(nodes, table)
      ensures forall x | 0 <= x < |nodes| :: nodes[x].value == old(nodes[x].value)
      ensures overflow ==> last >= |table|
      ensures !overflow ==> degree == 0 && last < |table| && table[last] != NIL
      ensures ok && overflow ==> Weight(ns0, S) >= Pow2(|table|)
      ensures ok && !overflow ==> Turn(ns0, S, L, P0, nodes, table, K, P, j, 0, roots)
    {
      table, last, overflow, K, P, j := table0, 0, false, K0, Q0, 0;
      while degree > 0
        invariant Shaped() && |nodes| == old(|nodes|) && |table| == |table0| && TableOk(nodes, table)
        invariant forall x | 0 <= x < |nodes| :: nodes[x].value == old(nodes[x].value)
        invariant ok ==> Turn(ns0, S, L, P0, nodes, table, K, P, j, degree, roots)
        invariant degree < old(degree) ==> last < |table| && table[last] != NIL
        decreases degree
      {
        table, last, overflow, K, P := Settle(ok, ns0, S, L, P0, j, table, K, P);
        if overflow {
          return;
        }
        degree := degree - 1;
        j := j + 1;
      }
    }

    /** Lines 83-171. An empty heap fails and nothing changes. Otherwise
        `min`'s children are promoted, `min` leaves the root ring and the
        remaining counted roots are consolidated and threaded into a new
        ring. `degree` is raised by `min`'s degree only after that was
        counted down to zero (line 98), so promoted children are never
        counted: with one root they are dropped with it, and with more the
        walk covers just `degree - 1` roots from `min`'s successor, and
        the trees of any root left over are dropped. After a pop that
        walked roots, `min` is the first least root of the new ring. When
        the walk does not fit the table (`TableOverflow`), the heap is
        left mid-way. */
    method Pop() returns (outcome: PopOutcome)
      requires Shaped()
      modifies this
      ensures Shaped()
      ensures SameValues(old(nodes), nodes)
      ensures outcome.EmptyHeap? <==> old(degree) == 0
      ensures old(degree) == 0 ==> unchanged(this)
      ensures outcome.TableOverflow? ==> old(degree) >= 2 && outcome.size == FloorLog2(old(degree) - 1) + 1 <= outcome.index
      ensures old(Valid()) && old(degree) == 1 ==> outcome.Popped? && Valid() && Live == {}
      ensures old(Valid()) && old(degree) >= 2 ==>
        var S := Survivors(old(Roots), old(Kids), old(min), old(degree) - 1);
        && (outcome.TableOverflow? <==> Weight(old(nodes), S) >= Pow2(FloorLog2(old(degree) - 1) + 1))
        && (outcome.Popped? ==>
              && Valid() && |Roots| >= 1 && DegreesIncrease(nodes, Roots)
              && Live == TreesOf(old(Live) - {old(min)}, Unhang(old(Path), old(min)), Elems(S)))
      ensures old(degree) >= 2 && outcome.Popped? ==> FirstLeast(nodes, Roots, min)
    {
      if degree == 0 {
        return EmptyHeap;
      }
      ghost var valid := Valid();
      ghost var R, L, K, P, m := Roots, Live, Kids, Path, min;
      ghost var ns0 := nodes;
      PromoteChildren(valid, R, K, P);
      if degree == 1 {
        Clear();
        return Popped;
      }
      outcome := PopMany(valid, ns0, R, L, K, P);
    }

    /** Lines 107-171 after `min`'s children joined the root ring, stated
        against the heap before that: `ns0` is the arena, `R` the root
        ring, `L` the live nodes, `K` the children rings and `P` the paths
        when `Pop` was called. */
    method PopMany(ghost valid: bool, ghost ns0: seq<Node>, ghost R: seq<int>, ghost L: set<int>,
                   ghost K: map<int, seq<int>>, ghost P: map<int, seq<int>>)
      returns (outcome: PopOutcome)
      requires Shaped() && degree > 1
      requires valid ==> && min in K && degree == |R| && |ns0| == |nodes|
                         && ForestOk(nodes, L, K[min := []], Unhang(P, min))
                         && RootRingOk(nodes, roots, min, |R + K[min]|, R + K[min], L)
      requires valid ==> forall x | 0 <= x < |nodes| && x != min :: nodes[x].degree == ns0[x].degree
      modifies this
      ensures Shaped()
      ensures outcome.Popped? || outcome.TableOverflow?
      ensures outcome.TableOverflow? ==> outcome.size == FloorLog2(old(degree) - 1) + 1 <= outcome.index
      ensures valid ==>
        var S := Survivors(R, K, old(min), old(degree) - 1);
        && (outcome.TableOverflow? <==> Weight(ns0, S) >= Pow2(FloorLog2(old(degree) - 1) + 1))
        && (outcome.Popped? ==>
              && Valid() && |Roots| >= 1 && DegreesIncrease(nodes, Roots)
              && Live == TreesOf(L - {old(min)}, Unhang(P, old(min)), Elems(S)))
      ensures outcome.Popped? ==> FirstLeast(nodes, Roots, min)
      ensures SameValues(old(nodes), nodes)
    {
      ghost var m := min;
      ghost var T := if valid then R + K[m] else [];
      ghost var ns1 := nodes;
      outcome := Restructure(valid, T, L, K[m := []], Unhang(P, m));
      if valid {
        SurvivorsJoined(R, K, m, old(degree) - 1);
        WeightFrame(ns0, ns1, Survivors(R, K, m, old(degree) - 1));
      }
    }

    /** Lines 100-105: the last counted root was `min`, so the heap is
        left without roots (its promoted children are not kept). */
    method Clear()
      requires Shape(nodes)
      modifies this`roots, this`min, this`degree, this`Roots, this`Live, this`Kids, this`Path
      ensures Valid() && degree == 0 && Roots == [] && Live == {}
    {
      roots, min, degree := NIL, NIL, 0;
      Roots, Live, Kids, Path := [], {}, map[], map[];
    }

    /** Lines 107-171, with more than one root counted: `min` leaves the
        root ring, `roots` moves on to its successor, and the remaining
        counted roots are consolidated and threaded into a new ring. */
    method Restructure(ghost ok: bool, ghost T: seq<int>, ghost L: set<int>,
                       ghost K: map<int, seq<int>>, ghost P: map<int, seq<int>>)
      returns (outcome: PopOutcome)
      requires Shaped() && degree > 1
      requires ok ==> && ForestOk(nodes, L, K, P) && RootRingOk(nodes, roots, min, |T|, T, L)
                      && min in K && K[min] == [] && degree <= |T|
      modifies this
      ensures Shaped()
      ensures outcome.Popped? || outcome.TableOverflow?
      ensures outcome.TableOverflow? ==> outcome.size == FloorLog2(old(degree) - 1) + 1 <= outcome.index
      ensures ok ==>
        var S := Survivors(T, K, old(min), old(degree) - 1);
        && (forall k | 0 <= k < |S| :: S[k] != old(min))
        && (outcome.TableOverflow? <==> Weight(old(nodes), S) >= Pow2(FloorLog2(old(degree) - 1) + 1))
        && (outcome.Popped? ==>
              Valid() && |Roots| >= 1 && Live == TreesOf(L - {old(min)}, P, Elems(S)) && DegreesIncrease(nodes, Roots))
      ensures outcome.Popped? ==> FirstLeast(nodes, Roots, min)
      ensures SameValues(old(nodes), nodes)
    {
      ghost var S: seq<int> := [];
      ghost var L1: set<int> := {};
      if ok {
        S, L1 := PopSurvivors(nodes, roots, min, T, L, K, P, degree - 1);
      }
      outcome := Reform(ok, S, L1, K, P);
    }

    /** Lines 107-171 once the counted survivors `S` are known: `min`
        is unlinked, `S` is consolidated and the table is threaded into
        the new root ring. */
    method Reform(ghost ok: bool, ghost S: seq<int>, ghost L: set<int>,
                  ghost K: map<int, seq<int>>, ghost P: map<int, seq<int>>)
      returns (outcome: PopOutcome)
      requires Shaped() && degree > 1
      requires ok ==> && |S| == degree - 1 && S[0] == nodes[min].next
                      && (forall k | 0 <= k < |S| :: S[k] != min)
                      && Chain(Unlink(nodes, min), S) && Distinct(S)
                      && ForestOk(Unlink(nodes, min), L, K, P) && RootsOf(Unlink(nodes, min), S, L)
      modifies this
      ensures Shaped()
      ensures outcome.Popped? || outcome.TableOverflow?
      ensures outcome.TableOverflow? ==> outcome.size == FloorLog2(old(degree) - 1) + 1 <= outcome.index
      ensures ok ==> (outcome.TableOverflow? <==> Weight(old(nodes), S) >= Pow2(FloorLog2(old(degree) - 1) + 1))
      ensures ok && outcome.Popped? ==> Valid() && |Roots| >= 1 && Live == L && DegreesIncrease(nodes, Roots)
      ensures outcome.Popped? ==> FirstLeast(nodes, Roots, min)
      ensures SameValues(old(nodes), nodes)
    {
      var table, result, K2, P2 := Condense(ok, S, L, K, P);
      if result.TableOverflow? {
        return result;
      }
      Rethread(ok, table, L, K2, P2);
      outcome := Popped;
    }

    /** Lines 146-169 with the ghost forest carried over: the table's roots
        become the root ring, and a forest stays valid. */
    method Rethread(ghost ok: bool, table: seq<int>, ghost L: set<int>,
                    ghost K: map<int, seq<int>>, ghost P: map<int, seq<int>>)
      requires Shaped() && degree == 0 && TableOk(nodes, table) && Present(table) != []
      requires ok ==> ForestOk(nodes, L, K, P) && Distinct(Present(table)) && RootsOf(nodes, Present(table), L)
      modifies this
      ensures Shaped()
      ensures ok ==> Valid() && |Roots| >= 1 && Live == L
      ensures ok ==> DegreesIncrease(nodes, Roots)
      ensures FirstLeast(nodes, Present(table), min) && Roots == Present(table)
      ensures SameValues(old(nodes), nodes)
    {
      ghost var ns1 := nodes;
      PresentIncreasing(nodes, table);
      Rebuild(table);
      DegreesFrame(ns1, nodes, Present(table));
      if ok {
        RebuildValid(ns1, nodes, roots, min, Present(table), L, K, P);
      }
      TakeForest(ok, Present(table), L, K, P);
    }

    /** The ghost forest `R`, `L`, `K`, `P` becomes the heap's own, which
        makes the heap valid when it describes the arena. */
    ghost method TakeForest(ok: bool, R: seq<int>, L: set<int>, K: map<int, seq<int>>, P: map<int, seq<int>>)
      requires Shaped()
      requires ok ==> ForestOk(nodes, L, K, P) && RootRingOk(nodes, roots, min, degree, R, L)
      modifies this`Roots, this`Live, this`Kids, this`Path
      ensures Roots == R && Live == L && Kids == K && Path == P
      ensures Shaped() && (ok ==> Valid())
    {
      Roots, Live, Kids, Path := R, L, K, P;
    }

    /** Lines 107-145: `min` leaves the root ring, `roots` moves on to its
        successor and the `degree - 1` roots from there are consolidated. */
    method Condense(ghost ok: bool, ghost S: seq<int>, ghost L: set<int>,
                    ghost K0: map<int, seq<int>>, ghost P0: map<int, seq<int>>)
      returns (table: seq<int>, outcome: PopOutcome, ghost K: map<int, seq<int>>, ghost P: map<int, seq<int>>)
      requires Shaped() && degree > 1
      requires ok ==> && |S| == degree - 1 && S[0] == nodes[min].next
                      && (forall k | 0 <= k < |S| :: S[k] != min)
                      && Chain(Unlink(nodes, min), S) && Distinct(S)
                      && ForestOk(Unlink(nodes, min), L, K0, P0) && RootsOf(Unlink(nodes, min), S, L)
      modifies this`nodes, this`roots, this`degree
      ensures Shaped() && |table| == FloorLog2(old(degree) - 1) + 1
      ensures SameValues(old(nodes), nodes)
      ensures outcome.Popped? || outcome.TableOverflow?
      ensures outcome.Popped? ==> degree == 0 && TableOk(nodes, table) && Present(table) != []
      ensures outcome.TableOverflow? ==> outcome.size == |table| <= outcome.index
      ensures ok ==> (outcome.TableOverflow? <==> Weight(old(nodes), S) >= Pow2(|table|))
      ensures ok && outcome.Popped? ==>
        && ForestOk(nodes, L, K, P) && Distinct(Present(table))
        && RootsOf(nodes, Present(table), L)
    {
      ghost var ns0 := nodes;
      UnlinkMin();
      if ok {
        WeightFrame(ns0, nodes, S);
      }
      table, outcome, K, P := Consolidate(ok, S, L, K0, P0);
    }

    /** The cached minimum is a live node whose value is at most every
        live node's, and the heap owns nodes exactly when it has roots. */
    lemma MinIsLeast()
      ensures Valid() && degree > 0 ==>
        min in Live && forall x | x in Live :: nodes[min].value <= nodes[x].value
      ensures Valid() ==> (degree == 0 <==> Live == {})
    {
      if Valid() {
        forall x | x in Live ensures degree > 0 && nodes[min].value <= nodes[x].value {
          assert LiveOk(nodes, Live, Kids, Path, x);
          MinBelowLive(nodes, roots, min, degree, Roots, Live, Kids, Path, x);
        }
        if degree > 0 {
          assert Roots[0] in Live;
          var i :| 0 <= i < |Roots| && Roots[i] == min;
        } else {
          assert forall x :: x !in Live;
        }
      }
    }

    /** Lines 48-50: the heap is empty exactly when it owns no node. */
    function Empty(): (b: bool)
      reads this
      ensures Valid() ==> (b <==> Live == {})
    {
      MinIsLeast();
      degree == 0
    }

    /** Lines 52-58: fails exactly on an empty heap; otherwise the value of
        a live node that is at most every live node's value. */
    function Top(): (r: Option<int>)
      reads this
      requires Shaped()
      ensures r.None? <==> degree == 0
      ensures Valid() && r.Some? ==>
        && (exists x | x in Live :: nodes[x].value == r.value)
        && (forall x | x in Live :: r.value <= nodes[x].value)
    {
      MinIsLeast();
      if degree == 0 then None else Some(nodes[min].value)
    }

    /** Lines 60-81: a new node with no parent, no children and no mark is
        spliced into the root ring just before `roots` and counted; it
        becomes `min` only when strictly below the old minimum, so earlier
        nodes win ties. */
    method Push(value: int) returns (handle: nat)
      requires Shaped()
      modifies this
      ensures Shaped()
      ensures handle == old(|nodes|) && |nodes| == handle + 1
      ensures degree == old(degree) + 1
      ensures nodes[handle].value == value && nodes[handle].parent == NIL && nodes[handle].children == NIL
      ensures nodes[handle].degree == 0 && !nodes[handle].marked
      ensures old(degree) == 0 ==>
        nodes == old(nodes) + [Fresh(value, handle)] && roots == handle && min == handle
      ensures Shape(old(nodes) + [Fresh(value, handle)])
      ensures old(degree) > 0 ==>
        && roots == old(roots)
        && nodes == SpliceBefore(old(nodes) + [Fresh(value, handle)], roots, handle)
        && min == (if value < old(nodes[min].value) then handle else old(min))
      ensures old(Valid()) ==> Valid()
      ensures Live == old(Live) + {handle} && Roots == old(Roots) + [handle]
      ensures Kids == old(Kids)[handle := []] && Path == old(Path)[handle := [handle]]
      ensures LinksOnly(old(nodes), nodes[..handle])
    {
      ghost var valid := Valid();
      ghost var ns0 := nodes;
      handle := Insert(value);
      if valid {
        PushValid(ns0, nodes, old(roots), old(min), min, old(degree), Roots, Live, Kids, Path, handle, value);
      }
      Roots, Live := Roots + [handle], Live + {handle};
      Kids, Path := Kids[handle := []], Path[handle := [handle]];
    }

    /** The real-state part of `Push`, lines 62-80. */
    method Insert(value: int) returns (handle: nat)
      requires Shaped()
      modifies this`nodes, this`roots, this`min, this`degree
      ensures Shaped()
      ensures handle == old(|nodes|) && |nodes| == handle + 1
      ensures degree == old(degree) + 1
      ensures nodes[handle].value == value && nodes[handle].parent == NIL && nodes[handle].children == NIL
      ensures nodes[handle].degree == 0 && !nodes[handle].marked
      ensures old(degree) == 0 ==>
        nodes == old(nodes) + [Fresh(value, handle)] && roots == handle && min == handle
      ensures Shape(old(nodes) + [Fresh(value, handle)])
      ensures old(degree) > 0 ==>
        && roots == old(roots)
        && nodes == SpliceBefore(old(nodes) + [Fresh(value, handle)], roots, handle)
        && min == (if value < old(nodes[min].value) then handle else old(min))
    {
      handle := |nodes|;
      ShapeAppend(nodes, value);
      nodes := nodes + [Fresh(value, handle)];
      if degree == 0 {
        roots := handle;
        min := handle;
      } else {
        nodes := SpliceBefore(nodes, roots, handle);
        if value < nodes[min].value {
          min := handle;
        }
      }
      degree := degree + 1;
    }

    /** Lines 173-206: store the new value in `node`, then walk up from
        it as `Cascade` describes. The source never checks that the value
        decreased and never takes a cut node out of its parent's children
        ring, so the result is a valid heap again only when `node` is a
        root whose value did not grow. On a valid heap, a decrease
        anywhere still leaves a least live value in `min`, the walk
        follows `node`'s path up its tree, and when it stops below the
        tree's root the root ring is the old one followed by the lifted
        nodes. */
    method Update(node: int, value: int) returns (ghost lifted: seq<int>, ghost stop: int)
      requires Shaped() && IsAddr(nodes, node) && degree > 0
      modifies this`nodes, this`min, this`degree
      ensures Climbed(old(nodes)[node := old(nodes[node]).(value := value)], node, old(min), old(degree),
                      lifted, stop)
      ensures old(Valid()) && node in old(Live) ==>
        && node in Path
        && ClimbedUp(old(nodes)[node := old(nodes[node]).(value := value)], Path[node], lifted, stop)
      ensures old(Valid()) && node in old(Live) && value <= old(nodes[node].value) ==>
        min in Live && forall x | x in Live :: nodes[min].value <= nodes[x].value
      ensures old(Valid()) && node in old(Live) && value <= old(nodes[node].value) && old(nodes[node].parent) == NIL ==>
        && Valid() && lifted == [] && stop == NIL
        && nodes == old(nodes)[node := old(nodes[node]).(value := value)]
    {
      ghost var valid := Valid() && node in Live;
      ghost var ns0, d0 := nodes, degree;
      ghost var A;
      A, lifted, stop := Lower(node, value, valid);
      if valid && value <= ns0[node].value && ns0[node].parent == NIL {
        RootUpdated(ns0, ns0[node := ns0[node].(value := value)], A, old(min), d0, node, value, lifted, stop);
      }
    }

    /** Lines 174-206 on their own: the new value and the walk up, with
        what a valid heap adds: the path, a least live value in `min`
        after a decrease, and the root ring when the walk stops below the
        tree's root. */
    method Lower(node: int, value: int, ghost valid: bool)
      returns (ghost A: seq<int>, ghost lifted: seq<int>, ghost stop: int)
      requires Shaped() && IsAddr(nodes, node) && degree > 0
      requires valid ==> Valid() && node in Live
      modifies this`nodes, this`min, this`degree
      ensures Climbed(old(nodes)[node := old(nodes[node]).(value := value)], node, old(min), old(degree),
                      lifted, stop)
      ensures valid ==>
        && node in Path && A == Path[node]
        && Ancestry(old(nodes)[node := old(nodes[node]).(value := value)], A, Roots) && A[|A| - 1] == node
        && ClimbedUp(old(nodes)[node := old(nodes[node]).(value := value)], A, lifted, stop)
      ensures valid && value <= old(nodes[node].value) ==>
        min in Live && forall x | x in Live :: nodes[min].value <= nodes[x].value
      ensures valid && stop != NIL ==> Ring(nodes, Roots + lifted)
    {
      ghost var ns0 := nodes;
      A := Revalue(node, value, valid);
      ghost var ns1 := nodes;
      lifted, stop := Cascade(node, valid, A, Roots);
      if valid && value <= ns0[node].value {
        DecreaseMin(ns0, ns1, nodes, roots, Live, A, node, value, old(min), min, lifted, stop);
      }
    }

    /** Line 174, with on a valid heap the facts `Cascade` needs: `A` is
        `node`'s path from its tree's root, which the new value does not
        change, and the old `min` is at most every live value. */
    method Revalue(node: int, value: int, ghost valid: bool) returns (ghost A: seq<int>)
      requires Shaped() && IsAddr(nodes, node) && degree > 0
      requires valid ==> Valid() && node in Live
      modifies this`nodes
      ensures Shaped() && nodes == old(nodes)[node := old(nodes[node]).(value := value)]
      ensures valid ==>
        && Ancestry(nodes, A, Roots) && A[|A| - 1] == node && Ring(nodes, Roots) && |Roots| > 0 && Roots[0] == roots
        && node in Path && A == Path[node] && (forall i | 0 <= i < |A| :: A[i] in Live)
        && min in Live && (forall x | x in Live :: 0 <= x < |old(nodes)| && old(nodes[min].value) <= old(nodes[x].value))
    {
      A := [];
      if valid {
        ValueKeepsPath(nodes, roots, min, degree, Roots, Live, Kids, Path, node, value);
        A := Path[node];
        MinIsLeast();
      }
      SetValue(node, value);
    }

    /** A root's value lowered on a valid heap (lines 174-184): the loop
        ends in its first round, and the heap is valid with the new value. */
    lemma RootUpdated(ns0: seq<Node>, ns1: seq<Node>, A: seq<int>, min0: int, d0: nat,
                      node: int, value: int, lifted: seq<int>, stop: int)
      requires 0 <= node < |ns0| && value <= ns0[node].value && ns0[node].parent == NIL && node in Live
      requires ns1 == ns0[node := ns0[node].(value := value)]
      requires ForestOk(ns0, Live, Kids, Path) && RootRingOk(ns0, roots, min0, d0, Roots, Live)
      requires Ancestry(ns1, A, Roots) && A[|A| - 1] == node
      requires Climbed(ns1, node, min0, d0, lifted, stop) && ClimbedUp(ns1, A, lifted, stop)
      ensures Valid() && lifted == [] && stop == NIL && nodes == ns1
    {
      AncestryTop(ns1, A, Roots);
      RootDecrease(ns0, roots, min0, d0, Roots, Live, Kids, Path, node, value);
    }

    /** `i->value = v` (line 174). */
    method SetValue(i: int, v: int)
      requires Shaped() && IsAddr(nodes, i)
      modifies this`nodes
      ensures Shaped()
      ensures nodes == old(nodes)[i := old(nodes)[i].(value := v)]
    {
      assert NodeShape(nodes, i);
      ShapeUpdate(nodes, i, nodes[i].(value := v));
      nodes := nodes[i := nodes[i].(value := v)];
    }

    /** `i->marked = b` (lines 191 and 203). */
    method SetMarked(i: int, b: bool)
      requires Shaped() && IsAddr(nodes, i)
      modifies this`nodes
      ensures Shaped()
      ensures nodes == old(nodes)[i := old(nodes)[i].(marked := b)]
    {
      assert NodeShape(nodes, i);
      ShapeUpdate(nodes, i, nodes[i].(marked := b));
      nodes := nodes[i := nodes[i].(marked := b)];
    }

    /** Lines 187-188: `c` forgets its parent `p`, whose degree counter
        drops by one as a `std::size_t` does. `c` stays in `p`'s children
        ring, and `p`'s `children` pointer is kept. */
    method CutParent(c: int, p: int)
      requires Shaped() && IsAddr(nodes, c) && nodes[c].parent == p && p != NIL
      modifies this`nodes
      ensures Shaped() && |nodes| == old(|nodes|) && IsAddr(nodes, p)
      ensures var ns1 := old(nodes)[c := old(nodes)[c].(parent := NIL)];
        nodes == ns1[p := ns1[p].(degree := SizeDec(ns1[p].degree))]
    {
      assert NodeShape(nodes, c);
      assert IsAddr(nodes, nodes[p].children);
      ShapeUpdate(nodes, c, nodes[c].(parent := NIL));
      nodes := nodes[c := nodes[c].(parent := NIL)];
      assert NodeShape(nodes, p);
      ShapeUpdate(nodes, p, nodes[p].(degree := SizeDec(nodes[p].degree)));
      nodes := nodes[p := nodes[p].(degree := SizeDec(nodes[p].degree))];
    }

    /** Lines 195-204: `p` is spliced into the root ring before `roots`
        and unmarked. */
    method LiftNode(p: int)
      requires Shaped() && IsAddr(nodes, p) && IsAddr(nodes, roots)
      modifies this`nodes
      ensures Shaped()
      ensures var r := SpliceBefore(old(nodes), roots, p);
        nodes == r[p := r[p].(marked := false)]
    {
      nodes := SpliceBefore(nodes, roots, p);
      SetMarked(p, false);
    }

    /** What holds throughout the loop at lines 177-205, in any arena.
        `ns1` is the arena after line 174, `min0` and `d0` are `min` and
        `degree` then. `lifted` lists the marked parents moved to the root
        ring so far, each counted once; `seen` says whether the node
        reached has been compared with `min`. Each lifted node is the
        parent of the node the rounds before it reached. */
    ghost predicate Round(ns1: seq<Node>, node: int, min0: int, d0: nat, lifted: seq<int>, seen: bool)
      reads this
    {
      && Shaped() && degree == d0 + |lifted|
      && LiftsOk(ns1, roots, node, lifted) && MarkedOnce(ns1, lifted) && ParentChain(ns1, roots, node, lifted)
      && MinSoFar(ns1, min, min0, node, lifted, seen)
    }

    /** The loop within an iteration, before the cut: `current` is the
        node reached, the arena is `ns1` after the rounds of `lifted`, and
        `seen` says whether `current` was compared with `min` yet (lines
        178-180). */
    ghost predicate Climbing(ns1: seq<Node>, node: int, min0: int, d0: nat, lifted: seq<int>, current: int, seen: bool)
      reads this
    {
      && Round(ns1, node, min0, d0, lifted, seen) && degree > 0
      && current == Last(node, lifted) && nodes == Lifts(ns1, roots, node, lifted)
    }

    /** `Climbing` after the node reached was cut from its parent
        `parent` (lines 187-188). */
    ghost predicate Cutting(ns1: seq<Node>, node: int, min0: int, d0: nat, lifted: seq<int>, parent: int)
      reads this
    {
      && Round(ns1, node, min0, d0, lifted, true) && degree > 0 && Cuttable(ns1, parent)
      && Lifts(ns1, roots, node, lifted)[Last(node, lifted)].parent == parent
      && nodes == CutFrom(Lifts(ns1, roots, node, lifted), Last(node, lifted), parent)
    }

    /** The loop has ended at `stop`, leaving the arena `Exited` gives. */
    ghost predicate Climbed(ns1: seq<Node>, node: int, min0: int, d0: nat, lifted: seq<int>, stop: int)
      reads this
    {
      Round(ns1, node, min0, d0, lifted, true) && Exited(ns1, nodes, roots, node, lifted, stop)
    }

    /** `Climbing` on a valid heap, where `A` is the path from `node`'s
        tree root down to `node`: `current` is the next node up `A` and
        still has its parent. */
    ghost predicate ClimbingUp(ns1: seq<Node>, A: seq<int>, lifted: seq<int>, current: int)
      reads this`nodes
    {
      && UpPath(ns1, nodes, A, lifted, NIL)
      && current == A[|A| - 1 - |lifted|] && 0 <= current < |nodes|
      && nodes[current].parent == ns1[current].parent
    }

    /** `ClimbingUp` after the cut: `parent` is the next node up the path
        `A`, still has its own parent, and its degree counter has been
        lowered once. */
    ghost predicate CuttingUp(ns1: seq<Node>, A: seq<int>, lifted: seq<int>, parent: int)
      reads this`nodes
    {
      && UpPath(ns1, nodes, A, lifted, parent)
      && |lifted| < |A| - 1 && parent == A[|A| - 2 - |lifted|] && parent !in lifted
      && 0 <= parent < |nodes| && nodes[parent].parent == ns1[parent].parent
    }

    /** `ClimbingUp` once the loop has ended at `stop`, the first unmarked
        node above the last lifted one on the path `A`, or NIL when the
        whole path above `node` was marked. */
    ghost predicate ClimbedUp(ns1: seq<Node>, A: seq<int>, lifted: seq<int>, stop: int)
      reads this`nodes
    {
      && UpPath(ns1, nodes, A, lifted, stop)
      && stop == (if |lifted| == |A| - 1 then NIL else A[|A| - 2 - |lifted|])
      && (stop != NIL ==> 0 <= stop < |ns1| && !ns1[stop].marked)
    }

    /** Lines 176-205 after the new value is stored: walk up from `node`,
        making each node `min` when strictly below it; stop at a node
        without a parent; otherwise cut the node from its parent, and
        stop after marking the parent if it was unmarked, or else move
        the parent to the root ring, unmarked and counted, and go on from
        it. The loop ends because every round that goes on unmarks a
        node. With `ok`, `A` is `node`'s path and `R` the root ring. */
    method Cascade(node: int, ghost ok: bool, ghost A: seq<int>, ghost R: seq<int>)
      returns (ghost lifted: seq<int>, ghost stop: int)
      requires Shaped() && IsAddr(nodes, node) && degree > 0
      requires ok ==> Ancestry(nodes, A, R) && A[|A| - 1] == node && Ring(nodes, R) && |R| > 0 && R[0] == roots
      modifies this`nodes, this`min, this`degree
      ensures Climbed(old(nodes), node, old(min), old(degree), lifted, stop)
      ensures ok ==> ClimbedUp(old(nodes), A, lifted, stop)
      ensures ok && stop != NIL ==> Ring(nodes, R + lifted)
    {
      ghost var ns1, min0, d0 := nodes, min, degree;
      var current := node;
      lifted := [];
      while true
        invariant Climbing(ns1, node, min0, d0, lifted, current, false)
        invariant ok ==> ClimbingUp(ns1, A, lifted, current)
        decreases Marked(ns1) - Elems(lifted)
      {
        var done;
        ghost var lifted';
        done, current, lifted', stop := Climb(ns1, node, min0, d0, ok, A, R, lifted, current);
        if done {
          break;
        }
        MarkedShrinks(ns1, lifted, current);
        lifted := lifted';
      }
      if ok && stop != NIL {
        ExitedRing(ns1, nodes, roots, node, lifted, stop, A, R);
      }
    }

    /** One round of the loop at lines 177-205. */
    method Climb(ghost ns1: seq<Node>, node: int, ghost min0: int, ghost d0: nat,
                 ghost ok: bool, ghost A: seq<int>, ghost R: seq<int>, ghost lifted: seq<int>, current: int)
      returns (done: bool, next: int, ghost lifted': seq<int>, ghost stop: int)
      requires Climbing(ns1, node, min0, d0, lifted, current, false)
      requires ok ==> ClimbingUp(ns1, A, lifted, current) && Ancestry(ns1, A, R) && A[|A| - 1] == node
      modifies this`nodes, this`min, this`degree
      ensures done ==> Climbed(ns1, node, min0, d0, lifted, stop)
      ensures done && ok ==> ClimbedUp(ns1, A, lifted, stop)
      ensures !done ==>
        && lifted' == lifted + [next] && next in Marked(ns1) && next !in lifted
        && next == Lifts(ns1, roots, node, lifted)[current].parent
        && Climbing(ns1, node, min0, d0, lifted', next, false)
        && (ok ==> ClimbingUp(ns1, A, lifted', next))
    {
      Compare(ns1, node, min0, d0, lifted, current);
      var parent := nodes[current].parent;
      if parent == NIL {
        EndRound(ns1, node, min0, d0, ok, A, R, lifted, current);
        return true, current, lifted, NIL;
      }
      Cut(ns1, node, min0, d0, ok, A, R, lifted, current, parent);
      if !nodes[parent].marked {
        Stop(ns1, node, min0, d0, ok, A, R, lifted, parent);
        return true, parent, lifted, parent;
      }
      ghost var ns := nodes;
      Lift(ns1, node, min0, d0, lifted, parent);
      if ok {
        LiftUp(ns1, ns, A, lifted, parent, roots);
      }
      return false, parent, lifted + [parent], NIL;
    }

    /** Lines 178-180: `current` becomes `min` when strictly below it. */
    method Compare(ghost ns1: seq<Node>, node: int, ghost min0: int, ghost d0: nat,
                   ghost lifted: seq<int>, current: int)
      requires Climbing(ns1, node, min0, d0, lifted, current, false)
      modifies this`min
      ensures Climbing(ns1, node, min0, d0, lifted, current, true)
      ensures min == if nodes[current].value < nodes[old(min)].value then current else old(min)
    {
      LiftsAt(ns1, roots, node, lifted, current);
      LiftsAt(ns1, roots, node, lifted, min);
      CompareMin(ns1, min, min0, node, lifted, current);
      if nodes[current].value < nodes[min].value {
        min := current;
      }
    }

    /** Line 184: the loop ends at `current`, which has no parent. */
    lemma EndRound(ns1: seq<Node>, node: int, min0: int, d0: nat,
                   ok: bool, A: seq<int>, R: seq<int>, lifted: seq<int>, current: int)
      requires Climbing(ns1, node, min0, d0, lifted, current, true) && nodes[current].parent == NIL
      requires ok ==> && ClimbingUp(ns1, A, lifted, current) && Ancestry(ns1, A, R)
                      && A[|A| - 1] == node
      ensures Climbed(ns1, node, min0, d0, lifted, NIL)
      ensures ok ==> ClimbedUp(ns1, A, lifted, NIL)
    {
      if ok {
        AncestryTop(ns1, A, R);
      }
    }

    /** Lines 187-188: `current` is cut from `parent`. */
    method Cut(ghost ns1: seq<Node>, node: int, ghost min0: int, ghost d0: nat,
               ghost ok: bool, ghost A: seq<int>, ghost R: seq<int>, ghost lifted: seq<int>, current: int,
               parent: int)
      requires Climbing(ns1, node, min0, d0, lifted, current, true)
      requires nodes[current].parent == parent && parent != NIL
      requires ok ==> && ClimbingUp(ns1, A, lifted, current) && Ancestry(ns1, A, R)
                      && A[|A| - 1] == node
      modifies this`nodes
      ensures Cutting(ns1, node, min0, d0, lifted, parent)
      ensures ok ==> CuttingUp(ns1, A, lifted, parent)
    {
      ghost var ns := nodes;
      assert NodeShape(nodes, current);
      CutParent(current, parent);
      if ok {
        NextUp(ns1, ns, A, R, node, lifted, current, parent);
        LiftsAt(ns1, roots, node, lifted, parent);
        CutUpStep(ns1, ns, A, lifted, current, parent);
      }
    }

    /** Lines 190-192: the unmarked parent is marked and the loop ends. */
    method Stop(ghost ns1: seq<Node>, node: int, ghost min0: int, ghost d0: nat,
                ghost ok: bool, ghost A: seq<int>, ghost R: seq<int>, ghost lifted: seq<int>, parent: int)
      requires Cutting(ns1, node, min0, d0, lifted, parent) && !nodes[parent].marked
      requires ok ==> CuttingUp(ns1, A, lifted, parent)
      modifies this`nodes
      ensures Climbed(ns1, node, min0, d0, lifted, parent)
      ensures ok ==> ClimbedUp(ns1, A, lifted, parent)
    {
      ghost var ns := nodes;
      if ok {
        StopUp(ns1, ns, A, lifted, parent);
        LiftsAt(ns1, roots, node, lifted, parent);
      }
      SetMarked(parent, true);
    }

    /** Lines 195-204: the marked parent is spliced into the root ring
        before `roots`, unmarked and counted, and the loop goes on from
        it. */
    method Lift(ghost ns1: seq<Node>, node: int, ghost min0: int, ghost d0: nat, ghost lifted: seq<int>, parent: int)
      requires Cutting(ns1, node, min0, d0, lifted, parent) && nodes[parent].marked
      modifies this`nodes, this`degree
      ensures parent in Marked(ns1) && parent !in lifted
      ensures Climbing(ns1, node, min0, d0, lifted + [parent], parent, false)
      ensures var r := SpliceBefore(old(nodes), roots, parent);
        nodes == r[parent := r[parent].(marked := false)]
    {
      LiftStep(ns1, roots, node, lifted, parent, min, min0);
      LiftNode(parent);
      degree := degree + 1;
    }
  }
}
