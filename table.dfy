/** The consolidation step of `Pop`: the degree-indexed table, its size,
    and linking two roots of equal degree. */
module Consolidation {
  import opened Nodes
  import opened Forest

  /** `std::floor(std::log2(n))` for `n >= 1`. */
  function FloorLog2(n: nat): (k: nat)
    requires n >= 1
    ensures Pow2(k) <= n < Pow2(k + 1)
  {
    if n == 1 then 0 else 1 + FloorLog2(n / 2)
  }

  /** `2^k`. */
  function Pow2(k: nat): (p: nat)
    ensures p >= 1
  {
    if k == 0 then 1 else 2 * Pow2(k - 1)
  }

  /** Number of occupied slots of the consolidation table. */
  function Occupied(table: seq<int>): (c: nat)
    ensures c <= |table|
  {
    if table == [] then 0 else Occupied(table[..|table| - 1]) + (if table[|table| - 1] != NIL then 1 else 0)
  }

  /** The occupied slots of the table, in slot order. */
  function Present(table: seq<int>): (s: seq<int>)
    ensures |s| == Occupied(table)
  {
    if table == [] then []
    else Present(table[..|table| - 1]) + (if table[|table| - 1] != NIL then [table[|table| - 1]] else [])
  }

  /** Every occupied slot `k` of the table holds a node of degree `k`. */
  ghost predicate TableOk(ns: seq<Node>, table: seq<int>)
  {
    forall k | 0 <= k < |table| && table[k] != NIL :: IsAddr(ns, table[k]) && ns[table[k]].degree == k
  }

  /** Lines 126-141: root `other` becomes the last child of root `current`
      (the only child when `current` had none), and `current` counts one
      more child. */
  function Link(ns: seq<Node>, current: int, other: int): (r: seq<Node>)
    requires Shape(ns) && IsAddr(ns, current) && IsAddr(ns, other)
    ensures |r| == |ns| && Shape(r) && Linked(ns, r, current, other)
  {
    assert NodeShape(ns, current);
    Adopt(Attach(ns, current, other), current, other)
  }

  /** What `Link(ns, current, other)` leaves in `r`, field by field. */
  ghost predicate Linked(ns: seq<Node>, r: seq<Node>, current: int, other: int)
  {
    && |r| == |ns| && IsAddr(ns, current) && IsAddr(ns, other)
    && (ns[current].degree > 0 ==> IsAddr(ns, ns[current].children))
    && (forall i | 0 <= i < |ns| :: r[i].value == ns[i].value && r[i].marked == ns[i].marked)
    && r[other].parent == current && r[current].degree == ns[current].degree + 1
    && r[current].children == (if ns[current].degree == 0 then other else ns[current].children)
    && (current != other ==> r[current].parent == ns[current].parent)
    && (current != other ==> r[other].children == ns[other].children && r[other].degree == ns[other].degree)
    && (forall i | 0 <= i < |ns| && i != other && i != current ::
          r[i].parent == ns[i].parent && r[i].children == ns[i].children && r[i].degree == ns[i].degree)
    && (ns[current].degree == 0 ==>
          forall i | 0 <= i < |ns| && i != other :: r[i].prev == ns[i].prev && r[i].next == ns[i].next)
    && (ns[current].degree > 0 ==>
          forall i | 0 <= i < |ns| && i != other && i != ns[current].children && i != ns[ns[current].children].prev ::
            r[i].prev == ns[i].prev && r[i].next == ns[i].next)
  }

  /** Lines 126-136: `other` enters `current`'s children ring as its last
      member, or as its only one when `current` had no children. */
  function Attach(ns: seq<Node>, current: int, other: int): (r: seq<Node>)
    requires Shape(ns) && IsAddr(ns, current) && IsAddr(ns, other)
    ensures |r| == |ns| && Shape(r) && IsAddr(r, r[current].children)
    ensures forall i | 0 <= i < |ns| ::
      && r[i].value == ns[i].value && r[i].marked == ns[i].marked
      && r[i].parent == ns[i].parent && r[i].degree == ns[i].degree
      && (i != current ==> r[i].children == ns[i].children)
    ensures r[current].children == if ns[current].degree == 0 then other else ns[current].children
    ensures ns[current].degree == 0 ==>
      forall i | 0 <= i < |ns| && i != other :: r[i].prev == ns[i].prev && r[i].next == ns[i].next
    ensures ns[current].degree > 0 ==>
      forall i | 0 <= i < |ns| && i != other && i != ns[current].children && i != ns[ns[current].children].prev ::
        r[i].prev == ns[i].prev && r[i].next == ns[i].next
  {
    assert NodeShape(ns, current) && NodeShape(ns, other);
    if ns[current].degree == 0 then
      var ns0 := Relink(ns, other, other, other);
      assert NodeShape(ns0, current);
      ShapeUpdate(ns0, current, ns0[current].(children := other));
      ns0[current := ns0[current].(children := other)]
    else
      assert NodeShape(ns, ns[current].children);
      SpliceBefore(ns, ns[current].children, other)
  }

  /** Lines 138 and 120: `other` takes `current` as its parent, and
      `current` counts one more child. */
  function Adopt(ns: seq<Node>, current: int, other: int): (r: seq<Node>)
    requires Shape(ns) && IsAddr(ns, current) && IsAddr(ns, other) && IsAddr(ns, ns[current].children)
    ensures |r| == |ns| && Shape(r)
    ensures r[other].parent == current && r[current].degree == ns[current].degree + 1
    ensures current != other ==> r[current].parent == ns[current].parent
    ensures current != other ==> r[other].children == ns[other].children && r[other].degree == ns[other].degree
    ensures r[current].children == ns[current].children
    ensures forall i | 0 <= i < |ns| ::
      && r[i].value == ns[i].value && r[i].marked == ns[i].marked
      && r[i].prev == ns[i].prev && r[i].next == ns[i].next
      && (i != other && i != current ==> r[i] == ns[i])
  {
    assert NodeShape(ns, other) && NodeShape(ns, current);
    ShapeUpdate(ns, other, ns[other].(parent := current));
    var ns1 := ns[other := ns[other].(parent := current)];
    assert NodeShape(ns1, current);
    ShapeUpdate(ns1, current, ns1[current].(degree := ns1[current].degree + 1));
    ns1[current := ns1[current].(degree := ns1[current].degree + 1)]
  }

  /** Lines 120-141 keep every slot's node at that slot's degree: the
      parent `c` leaves slot `d`, its old degree, and only its degree
      changes. */
  lemma LinkTableOk(ns: seq<Node>, table: seq<int>, c: int, o: int)
    requires Shape(ns) && TableOk(ns, table) && IsAddr(ns, c) && IsAddr(ns, o) && ns[c].degree < |table|
    ensures TableOk(Link(ns, c, o), table[ns[c].degree := NIL])
  {
    var d := ns[c].degree;
    var t := table[d := NIL];
    forall k | 0 <= k < |t| && t[k] != NIL ensures IsAddr(Link(ns, c, o), t[k]) && Link(ns, c, o)[t[k]].degree == k {
      assert k != d && t[k] == table[k] && ns[table[k]].degree == k;
    }
  }

  /** The table's occupied slots are exactly the members of `Present`. */
  lemma {:induction false} PresentMembers(table: seq<int>)
    ensures forall x :: x in Present(table) <==> x != NIL && exists k | 0 <= k < |table| :: table[k] == x
  {
    if table != [] {
      var t := table[..|table| - 1];
      PresentMembers(t);
      forall x | x != NIL && (exists k | 0 <= k < |table| :: table[k] == x) ensures x in Present(table) {
        var k :| 0 <= k < |table| && table[k] == x;
        if k < |table| - 1 { assert t[k] == x; }
      }
      forall x | x in Present(table) ensures x != NIL && exists k | 0 <= k < |table| :: table[k] == x {
        if x in Present(t) {
          var k :| 0 <= k < |t| && t[k] == x;
          assert table[k] == x;
        }
      }
    }
  }

  /** A table with an occupied slot has a first occupied slot. */
  lemma PresentNonEmpty(table: seq<int>, k: int)
    requires 0 <= k < |table| && table[k] != NIL
    ensures Present(table) != []
  {
    PresentMembers(table);
    assert table[k] in Present(table);
  }

  /** A well-formed table never holds a node twice: slot `k` holds a node of degree `k`. */
  lemma {:induction false} PresentDistinct(ns: seq<Node>, table: seq<int>)
    requires TableOk(ns, table)
    ensures Distinct(Present(table))
    ensures forall i | 0 <= i < |Present(table)| :: 0 <= Present(table)[i] < |ns|
  {
    if table != [] {
      var t := table[..|table| - 1];
      assert TableOk(ns, t);
      PresentDistinct(ns, t);
      PresentMembers(t);
      var last := table[|table| - 1];
      if last != NIL {
        forall x | x in Present(t) ensures x != last {
          var k :| 0 <= k < |t| && t[k] == x;
          assert ns[x].degree == k;
        }
        DistinctSnoc(Present(t), last);
      }
    }
  }

  /** The nodes of `s` lie in the arena and have strictly increasing
      degrees along `s`; in particular no two share a degree. */
  ghost predicate DegreesIncrease(ns: seq<Node>, s: seq<int>)
  {
    && (forall i | 0 <= i < |s| :: 0 <= s[i] < |ns|)
    && (forall i, j | 0 <= i < j < |s| :: ns[s[i]].degree < ns[s[j]].degree)
  }

  /** Read in slot order, a well-formed table's roots have strictly
      increasing degrees, each below the table's size. */
  lemma {:induction false} PresentIncreasing(ns: seq<Node>, table: seq<int>)
    requires TableOk(ns, table)
    ensures DegreesIncrease(ns, Present(table))
    ensures forall i | 0 <= i < |Present(table)| :: ns[Present(table)[i]].degree < |table|
  {
    if table != [] {
      var t := table[..|table| - 1];
      assert TableOk(ns, t);
      PresentIncreasing(ns, t);
      var last := table[|table| - 1];
      if last != NIL {
        var s := Present(t) + [last];
        assert Present(table) == s;
        assert ns[last].degree == |t|;
        forall i, j | 0 <= i < j < |s| ensures ns[s[i]].degree < ns[s[j]].degree {
          if j < |s| - 1 {
            assert s[i] == Present(t)[i] && s[j] == Present(t)[j];
          } else {
            assert s[i] == Present(t)[i];
          }
        }
      }
    }
  }

  /** Relinking rings keeps degrees. */
  lemma DegreesFrame(ns: seq<Node>, ns': seq<Node>, s: seq<int>)
    requires DegreesIncrease(ns, s) && LinksOnly(ns, ns')
    ensures DegreesIncrease(ns', s)
  {
    forall i | 0 <= i < |s| ensures ns'[s[i]].degree == ns[s[i]].degree {
      assert ns'[s[i]] == ns[s[i]].(prev := ns'[s[i]].prev, next := ns'[s[i]].next);
    }
  }

  /** Growing the table's scanned prefix by one slot appends that slot's
      node, if any, and keeps the occupied slots distinct. */
  lemma PresentPrefix(ns: seq<Node>, table: seq<int>, i: int)
    requires TableOk(ns, table) && 0 <= i < |table|
    ensures Present(table[..i + 1]) == Present(table[..i]) + (if table[i] != NIL then [table[i]] else [])
    ensures table[i] != NIL ==> IsAddr(ns, table[i]) && Distinct(Present(table[..i]) + [table[i]])
  {
    assert table[..i + 1][..i] == table[..i];
    assert TableOk(ns, table[..i + 1]);
    PresentDistinct(ns, table[..i + 1]);
  }

  /** `m` is the first member of `s` whose value is least. */
  ghost predicate FirstLeast(ns: seq<Node>, s: seq<int>, m: int)
  {
    && 0 <= m < |ns| && (forall j | 0 <= j < |s| :: 0 <= s[j] < |ns|)
    && (exists j | 0 <= j < |s| :: s[j] == m && forall k | 0 <= k < j :: ns[s[k]].value > ns[m].value)
    && (forall j | 0 <= j < |s| :: ns[m].value <= ns[s[j]].value)
  }

  /** Lines 160-162: a new member replaces the first least one only when strictly smaller. */
  lemma FirstLeastSnoc(ns: seq<Node>, s: seq<int>, m: int, x: int)
    requires FirstLeast(ns, s, m) && 0 <= x < |ns|
    ensures FirstLeast(ns, s + [x], if ns[x].value < ns[m].value then x else m)
  {
    var t := s + [x];
    var j :| 0 <= j < |s| && s[j] == m && forall k | 0 <= k < j :: ns[s[k]].value > ns[m].value;
    assert t[j] == m && t[|s|] == x;
    assert forall k | 0 <= k < |s| :: t[k] == s[k];
  }

  /** Changing only ring links does not change which member is least. */
  lemma FirstLeastFrame(ns: seq<Node>, ns': seq<Node>, s: seq<int>, m: int)
    requires FirstLeast(ns, s, m) && LinksOnly(ns, ns')
    ensures FirstLeast(ns', s, m)
  {
    assert forall x | 0 <= x < |ns| :: ns'[x].value == ns[x].value;
  }

  /** Linking appends `o` to the children ring of `c`. */
  lemma LinkKids(ns: seq<Node>, L: set<int>, K: map<int, seq<int>>, P: map<int, seq<int>>, c: int, o: int)
    requires Shape(ns) && ForestOk(ns, L, K, P) && c in L && o in L && c != o
    requires IsAddr(ns, c) && IsAddr(ns, o) && c in K && ns[o].parent == NIL
    ensures Ring(Link(ns, c, o), K[c] + [o])
  {
    var r := Link(ns, c, o);
    assert LiveOk(ns, L, K, P, c);
    assert o !in K[c] by {
      forall i | 0 <= i < |K[c]| ensures K[c][i] != o { }
    }
    if ns[c].degree == 0 {
      assert Ring(r, K[c] + [o]);
    } else {
      assert NodeShape(ns, c);
      SpliceBeforeRing(ns, K[c], o);
      RingFrame(SpliceBefore(ns, K[c][0], o), r, K[c] + [o]);
    }
  }

  /** Linking changes the ring links of `o` and of children of `c` only. */
  lemma LinkLinks(ns: seq<Node>, L: set<int>, K: map<int, seq<int>>, P: map<int, seq<int>>, c: int, o: int, r: seq<Node>)
    requires Linked(ns, r, c, o)
    requires Shape(ns) && ForestOk(ns, L, K, P) && c in L
    requires IsAddr(ns, c) && IsAddr(ns, o) && c in K
    ensures forall x | 0 <= x < |ns| && x != o && ns[x].parent != c ::
      r[x].prev == ns[x].prev && r[x].next == ns[x].next
  {
    assert LiveOk(ns, L, K, P, c);
    if ns[c].degree > 0 {
      var k := K[c];
      assert ns[c].children == k[0] && ns[k[0]].prev == k[|k| - 1];
      assert k[0] in L && k[|k| - 1] in L;
    }
  }

  /** The new parent keeps its obligations across a link. */
  lemma LinkLiveParent(ns: seq<Node>, L: set<int>, K: map<int, seq<int>>, P: map<int, seq<int>>, c: int, o: int, r: seq<Node>)
    requires Linked(ns, r, c, o)
    requires Shape(ns) && ForestOk(ns, L, K, P) && c in L && o in L && c != o
    requires IsAddr(ns, c) && IsAddr(ns, o) && c in K && Ring(r, K[c] + [o])
    requires ns[c].parent == NIL && ns[o].parent == NIL
    ensures LiveOk(r, L, K[c := K[c] + [o]], Hang(P, o, c), c)
  {
    var K', P' := K[c := K[c] + [o]], Hang(P, o, c);
    assert LiveOk(ns, L, K, P, c);
    forall i | 0 <= i < |K'[c]| ensures K'[c][i] in L && r[K'[c][i]].parent == c {
      if i < |K[c]| {
        assert K'[c][i] == K[c][i];
      }
    }
    assert P'[c] == [c];
  }

  /** The new child keeps its obligations across a link. */
  lemma LinkLiveChild(ns: seq<Node>, L: set<int>, K: map<int, seq<int>>, P: map<int, seq<int>>, c: int, o: int, r: seq<Node>)
    requires Linked(ns, r, c, o)
    requires Shape(ns) && ForestOk(ns, L, K, P) && c in L && o in L && c != o
    requires IsAddr(ns, c) && IsAddr(ns, o) && c in K
    requires ns[c].parent == NIL && ns[o].parent == NIL && ns[c].value <= ns[o].value
    ensures LiveOk(r, L, K[c := K[c] + [o]], Hang(P, o, c), o)
  {
    var K', P' := K[c := K[c] + [o]], Hang(P, o, c);
    assert LiveOk(ns, L, K, P, c) && LiveOk(ns, L, K, P, o);
    LinkLinks(ns, L, K, P, c, o, r);
    LinkOthersKids(ns, L, K, P, c, o, r, o);
    assert P'[c] == [c] && P'[o] == [c, o];
    assert o in K'[c] by { assert K'[c][|K[c]|] == o; }
  }

  /** Any other live node keeps its children ring and its path shape. */
  lemma LinkOthersKids(ns: seq<Node>, L: set<int>, K: map<int, seq<int>>, P: map<int, seq<int>>, c: int, o: int, r: seq<Node>, y: int)
    requires Linked(ns, r, c, o)
    requires Shape(ns) && ForestOk(ns, L, K, P) && c in L
    requires IsAddr(ns, c) && IsAddr(ns, o) && c in K && ns[o].parent == NIL
    requires y in L && y != c
    ensures y in K && Ring(r, K[y])
    ensures forall i | 0 <= i < |K[y]| :: r[K[y][i]].parent == y
  {
    assert LiveOk(ns, L, K, P, y);
    LinkLinks(ns, L, K, P, c, o, r);
    forall i | 0 <= i < |K[y]| ensures 0 <= K[y][i] < |ns| ==>
        0 <= K[y][i] < |r| && r[K[y][i]].next == ns[K[y][i]].next && r[K[y][i]].prev == ns[K[y][i]].prev
    {
      assert K[y][i] in L && ns[K[y][i]].parent == y;
    }
    RingFrame(ns, r, K[y]);
    forall i | 0 <= i < |K[y]| ensures r[K[y][i]].parent == y {
      assert K[y][i] in L && ns[K[y][i]].parent == y;
    }
  }

  /** A node other than the two linked roots keeps its obligations. */
  lemma LinkLiveOther(ns: seq<Node>, L: set<int>, K: map<int, seq<int>>, P: map<int, seq<int>>, c: int, o: int, r: seq<Node>, y: int)
    requires Linked(ns, r, c, o)
    requires Shape(ns) && ForestOk(ns, L, K, P) && c in L && o in L && c != o
    requires IsAddr(ns, c) && IsAddr(ns, o) && c in K
    requires ns[c].parent == NIL && ns[o].parent == NIL
    requires y in L && y != c && y != o
    ensures LiveOk(r, L, K[c := K[c] + [o]], Hang(P, o, c), y)
  {
    var K', P' := K[c := K[c] + [o]], Hang(P, o, c);
    assert LiveOk(ns, L, K, P, y);
    LinkOthersKids(ns, L, K, P, c, o, r, y);
    assert r[y].parent == ns[y].parent && r[y].degree == ns[y].degree;
    assert r[y].children == ns[y].children && r[y].value == ns[y].value;
    var p := ns[y].parent;
    if p == NIL {
      assert P'[y] == [y];
    } else {
      assert LiveOk(ns, L, K, P, p);
      assert P[y][0] == P[p][0];
      assert P'[y] == P'[p] + [y];
      assert r[p].value == ns[p].value;
      assert y in K'[p];
    }
  }

  /** Lines 126-141 keep the heap a forest: the larger root's tree hangs
      below the smaller, as the last member of its children ring, and heap
      order holds on the new edge. */
  lemma LinkForest(ns: seq<Node>, L: set<int>, K: map<int, seq<int>>, P: map<int, seq<int>>, c: int, o: int)
    requires Shape(ns) && ForestOk(ns, L, K, P) && c in L && o in L && c != o
    requires IsAddr(ns, c) && IsAddr(ns, o) && c in K
    requires ns[c].parent == NIL && ns[o].parent == NIL && ns[c].value <= ns[o].value
    ensures ForestOk(Link(ns, c, o), L, K[c := K[c] + [o]], Hang(P, o, c))
  {
    var r := Link(ns, c, o);
    LinkKids(ns, L, K, P, c, o);
    forall y | y in L ensures LiveOk(r, L, K[c := K[c] + [o]], Hang(P, o, c), y) {
      if y == c {
        LinkLiveParent(ns, L, K, P, c, o, r);
      } else if y == o {
        LinkLiveChild(ns, L, K, P, c, o, r);
      } else {
        LinkLiveOther(ns, L, K, P, c, o, r, y);
      }
    }
  }
}
