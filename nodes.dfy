/** The node arena of the heap: the `Node<T>` record with `T = int`, the
    pointer conventions, and the circular doubly-linked rings that both the
    root list and every children list are made of. */
module Nodes {

  /** `nullptr` */
  const NIL: int := -1

  /** Largest `std::size_t`, needed where a node's degree counter wraps. */
  const SIZE_MAX: nat := 0xFFFF_FFFF_FFFF_FFFF

  /** `d--` on a `std::size_t`: zero wraps round to `SIZE_MAX`. */
  function SizeDec(d: nat): (r: nat)
    ensures d <= SIZE_MAX ==> r <= SIZE_MAX && (r + 1) % (SIZE_MAX + 1) == d
  {
    if d == 0 then SIZE_MAX else d - 1
  }

  /** One heap node; pointers are arena indices or NIL. */
  datatype Node = Node(
    value: int,
    parent: int,
    prev: int,
    next: int,
    children: int,
    degree: nat,
    marked: bool)

  /** A freshly constructed node at arena index `self`: no parent, no
      children, unmarked, and a ring of its own. */
  function Fresh(value: int, self: nat): Node
  {
    Node(value, NIL, self, self, NIL, 0, false)
  }

  /** `p` is the index of a node of the arena. */
  predicate IsAddr(ns: seq<Node>, p: int)
  {
    0 <= p < |ns|
  }

  /** `p` is `nullptr` or the index of a node of the arena. */
  predicate IsPtr(ns: seq<Node>, p: int)
  {
    p == NIL || IsAddr(ns, p)
  }

  /** Every pointer a node holds can be followed without leaving the arena:
      ring neighbours always exist, and a node that has (or is named as a
      parent by) a child has a children pointer to follow. */
  ghost predicate NodeShape(ns: seq<Node>, i: int)
    requires IsAddr(ns, i)
  {
    var n := ns[i];
    && IsAddr(ns, n.prev) && IsAddr(ns, n.next)
    && IsPtr(ns, n.parent) && IsPtr(ns, n.children)
    && (n.degree > 0 ==> IsAddr(ns, n.children))
    && (n.parent != NIL ==> IsAddr(ns, ns[n.parent].children))
  }

  /** Every node of the arena is `NodeShape`. */
  ghost predicate Shape(ns: seq<Node>)
  {
    forall i {:trigger NodeShape(ns, i)} | 0 <= i < |ns| :: NodeShape(ns, i)
  }

  /** Rewriting one node keeps the arena shaped when the new record's own
      pointers are in range and its children pointer is kept or in range. */
  lemma ShapeUpdate(ns: seq<Node>, i: int, n: Node)
    requires Shape(ns) && IsAddr(ns, i)
    requires IsAddr(ns, n.prev) && IsAddr(ns, n.next) && IsPtr(ns, n.parent) && IsPtr(ns, n.children)
    requires n.degree > 0 ==> IsAddr(ns, n.children)
    requires n.parent != NIL ==> IsAddr(ns, (if n.parent == i then n else ns[n.parent]).children)
    requires n.children == ns[i].children || IsAddr(ns, n.children)
    ensures Shape(ns[i := n])
  {
    var ns' := ns[i := n];
    forall j | 0 <= j < |ns'| ensures NodeShape(ns', j) {
      assert NodeShape(ns, j);
    }
  }

  /** Appending a fresh node keeps the arena shaped. */
  lemma ShapeAppend(ns: seq<Node>, value: int)
    requires Shape(ns)
    ensures Shape(ns + [Fresh(value, |ns|)])
  {
    var ns' := ns + [Fresh(value, |ns|)];
    forall j | 0 <= j < |ns'| ensures NodeShape(ns', j) {
      if j < |ns| { assert NodeShape(ns, j); }
    }
  }

  /** The members of `s`, as a set. */
  ghost function Elems(s: seq<int>): set<int>
  {
    set x | x in s
  }

  /** No member of `s` occurs twice. */
  ghost predicate Distinct(s: seq<int>)
  {
    forall i, j | 0 <= i < j < |s| :: s[i] != s[j]
  }

  /** Appending a new member keeps a sequence free of repeats. */
  lemma DistinctSnoc(s: seq<int>, x: int)
    requires Distinct(s) && x !in s
    ensures Distinct(s + [x])
  {
    var t := s + [x];
    forall i, j | 0 <= i < j < |t| ensures t[i] != t[j] {
      if j < |s| { assert t[i] == s[i] && t[j] == s[j]; }
    }
  }

  /** `s` lists, in `next` order, the members of one closed ring whose
      `prev` links run the other way. */
  ghost predicate Ring(ns: seq<Node>, s: seq<int>)
  {
    && Distinct(s)
    && (forall i | 0 <= i < |s| :: 0 <= s[i] < |ns|)
    && (forall i | 0 <= i < |s| - 1 :: ns[s[i]].next == s[i + 1])
    && (forall i | 0 < i < |s| :: ns[s[i]].prev == s[i - 1])
    && (|s| > 0 ==> ns[s[|s| - 1]].next == s[0] && ns[s[0]].prev == s[|s| - 1])
  }

  /** Two arenas agree on the ring links of every node in `s`. */
  ghost predicate SameLinks(ns: seq<Node>, ns': seq<Node>, s: seq<int>)
  {
    forall i | 0 <= i < |s| :: 0 <= s[i] < |ns| ==>
      0 <= s[i] < |ns'| && ns'[s[i]].next == ns[s[i]].next && ns'[s[i]].prev == ns[s[i]].prev
  }

  /** A ring is a property of its own members' links only. */
  lemma RingFrame(ns: seq<Node>, ns': seq<Node>, s: seq<int>)
    requires Ring(ns, s) && SameLinks(ns, ns', s)
    ensures Ring(ns', s)
  {
    forall i | 0 <= i < |s| - 1
      ensures ns'[s[i]].next == s[i + 1] && ns'[s[i + 1]].prev == s[i]
    {
      assert IsAddr(ns, s[i]) && IsAddr(ns, s[i + 1]);
    }
    if |s| > 0 {
      assert IsAddr(ns, s[0]) && IsAddr(ns, s[|s| - 1]);
    }
  }

  /** Splicing `h` in just before `s[0]` (after the last member) extends
      the ring by `h` at its end. */
  lemma RingInsertLast(ns: seq<Node>, ns': seq<Node>, s: seq<int>, h: int)
    requires Ring(ns, s) && |s| > 0 && h !in s && IsAddr(ns', h) && |ns| <= |ns'|
    requires ns'[h].prev == s[|s| - 1] && ns'[h].next == s[0]
    requires ns'[s[|s| - 1]].next == h && ns'[s[0]].prev == h
    requires forall i | 0 < i < |s| :: ns'[s[i]].prev == ns[s[i]].prev
    requires forall i | 0 <= i < |s| - 1 :: ns'[s[i]].next == ns[s[i]].next
    ensures Ring(ns', s + [h])
  {
    var t := s + [h];
    forall i, j | 0 <= i < j < |t| ensures t[i] != t[j] {
      if j < |s| { assert t[i] == s[i] && t[j] == s[j]; }
    }
    forall i | 0 <= i < |t| - 1 ensures ns'[t[i]].next == t[i + 1] && ns'[t[i + 1]].prev == t[i] {
      if i < |s| - 1 {
        assert t[i] == s[i] && t[i + 1] == s[i + 1];
      }
    }
  }

  /** `i->prev = p; i->next = n`: one node's ring links are rewritten
      and nothing else changes. */
  function Relink(ns: seq<Node>, i: int, p: int, n: int): (r: seq<Node>)
    requires Shape(ns) && IsAddr(ns, i) && IsAddr(ns, p) && IsAddr(ns, n)
    ensures |r| == |ns| && Shape(r) && LinksOnly(ns, r)
    ensures r[i].prev == p && r[i].next == n
    ensures forall j | 0 <= j < |ns| && j != i :: r[j] == ns[j]
  {
    assert NodeShape(ns, i);
    ShapeUpdate(ns, i, ns[i].(prev := p, next := n));
    ns[i := ns[i].(prev := p, next := n)]
  }

  /** Lines 67-71 and 197-201: splice node `h` into `at`'s ring just
      before `at`, that is, after `at`'s predecessor. */
  function SpliceBefore(ns: seq<Node>, at: int, h: int): (r: seq<Node>)
    requires Shape(ns) && IsAddr(ns, at) && IsAddr(ns, h)
    ensures |r| == |ns| && Shape(r) && LinksOnly(ns, r)
    ensures forall i | 0 <= i < |ns| ::
      r[i].value == ns[i].value && r[i].parent == ns[i].parent && r[i].children == ns[i].children
      && r[i].degree == ns[i].degree && r[i].marked == ns[i].marked
    ensures forall i | 0 <= i < |ns| && i != h && i != at && i != ns[at].prev :: r[i] == ns[i]
    ensures r[at].prev == h
    ensures h != at && h != ns[at].prev ==>
      r[h] == ns[h].(prev := ns[at].prev, next := at) && r[at].prev == h && r[ns[at].prev].next == h
  {
    assert NodeShape(ns, at) && NodeShape(ns, h);
    var last := ns[at].prev;
    var ns1 := Relink(ns, h, last, at);
    assert ns1[at].prev == last;
    assert NodeShape(ns1, last);
    var ns2 := Relink(ns1, last, ns1[last].prev, h);
    assert NodeShape(ns2, at);
    var r := Relink(ns2, at, h, ns2[at].next);
    LinksOnlyTrans(ns, ns1, ns2);
    LinksOnlyTrans(ns, ns2, r);
    r
  }

  /** Splicing a node that is not yet in the ring `s` (entered at `s[0]`)
      before `s[0]` makes it the ring's last member, and touches no links
      but those of the new node, `s[0]` and the old last member. */
  lemma SpliceBeforeRing(ns: seq<Node>, s: seq<int>, h: int)
    requires Shape(ns) && Ring(ns, s) && |s| > 0 && h !in s && IsAddr(ns, h)
    ensures Ring(SpliceBefore(ns, s[0], h), s + [h])
    ensures forall i | 0 <= i < |ns| && i != h && i != s[0] && i != s[|s| - 1] ::
      SpliceBefore(ns, s[0], h)[i] == ns[i]
  {
    var r := SpliceBefore(ns, s[0], h);
    assert r[h].prev == s[|s| - 1] && r[h].next == s[0];
    RingInsertLast(ns, r, s, h);
  }

  /** `ns'` differs from `ns` at most in ring links. */
  ghost predicate LinksOnly(ns: seq<Node>, ns': seq<Node>)
  {
    |ns'| == |ns| && forall x | 0 <= x < |ns| :: ns'[x] == ns[x].(prev := ns'[x].prev, next := ns'[x].next)
  }

  /** `ns` and `ns'` agree on every ring link. */
  ghost predicate LinksAgree(ns: seq<Node>, ns': seq<Node>)
  {
    |ns'| == |ns| && forall x | 0 <= x < |ns| :: ns'[x].prev == ns[x].prev && ns'[x].next == ns[x].next
  }

  /** A splice reads and writes ring links only, so arenas that agree on
      them still agree after the same splice. */
  lemma SpliceAgrees(ns: seq<Node>, ms: seq<Node>, at: int, h: int)
    requires Shape(ns) && Shape(ms) && LinksAgree(ns, ms) && IsAddr(ns, at) && IsAddr(ns, h)
    ensures LinksAgree(SpliceBefore(ns, at, h), SpliceBefore(ms, at, h))
  {
    assert NodeShape(ns, at) && NodeShape(ns, h) && NodeShape(ms, at) && NodeShape(ms, h);
    var last := ns[at].prev;
    var ns1 := Relink(ns, h, last, at);
    var ms1 := Relink(ms, h, last, at);
    assert LinksAgree(ns1, ms1);
    assert NodeShape(ns1, last) && NodeShape(ms1, last);
    var ns2 := Relink(ns1, last, ns1[last].prev, h);
    var ms2 := Relink(ms1, last, ms1[last].prev, h);
    assert LinksAgree(ns2, ms2);
    assert NodeShape(ns2, at) && NodeShape(ms2, at);
    assert SpliceBefore(ns, at, h) == Relink(ns2, at, h, ns2[at].next);
    assert SpliceBefore(ms, at, h) == Relink(ms2, at, h, ms2[at].next);
  }

  /** The marked nodes of an arena. */
  ghost function Marked(ns: seq<Node>): set<int>
  {
    set x | 0 <= x < |ns| && ns[x].marked
  }

  /** Two arenas of the same size hold the same value in every node. */
  ghost predicate SameValues(ns: seq<Node>, ns': seq<Node>)
  {
    |ns'| == |ns| && forall x | 0 <= x < |ns| :: ns'[x].value == ns[x].value
  }

  /** Arenas that agree on every field but the ring links differ only
      in those. */
  lemma LinksOnlyFields(ns: seq<Node>, ns': seq<Node>)
    requires |ns'| == |ns|
    requires forall x | 0 <= x < |ns| ::
      && ns'[x].value == ns[x].value && ns'[x].parent == ns[x].parent && ns'[x].children == ns[x].children
      && ns'[x].degree == ns[x].degree && ns'[x].marked == ns[x].marked
    ensures LinksOnly(ns, ns')
  {
  }

  /** Two steps that change only ring links together change only ring links. */
  lemma LinksOnlyTrans(ns: seq<Node>, ns': seq<Node>, ns'': seq<Node>)
    requires LinksOnly(ns, ns') && LinksOnly(ns', ns'')
    ensures LinksOnly(ns, ns'')
  {
    forall x | 0 <= x < |ns| ensures ns''[x] == ns[x].(prev := ns''[x].prev, next := ns''[x].next) {
      assert ns'[x] == ns[x].(prev := ns'[x].prev, next := ns'[x].next);
    }
  }

  /** `s` is threaded by `next` and `prev` from its first to its last
      member, not yet closed. */
  ghost predicate Chain(ns: seq<Node>, s: seq<int>)
  {
    && (forall j | 0 <= j < |s| :: 0 <= s[j] < |ns|)
    && (forall j | 0 <= j < |s| - 1 :: ns[s[j]].next == s[j + 1] && ns[s[j + 1]].prev == s[j])
  }

  /** Lines 155-158: hooking `x` after the chain's last member, and making
      it the predecessor of the first, extends the chain. */
  lemma ChainSnoc(ns: seq<Node>, s: seq<int>, x: int)
    requires Chain(ns, s) && s != [] && 0 <= x < |ns| && Distinct(s + [x])
    ensures var ns1 := ns[x := ns[x].(prev := s[|s| - 1])];
            var ns2 := ns1[s[|s| - 1] := ns1[s[|s| - 1]].(next := x)];
            var ns3 := ns2[s[0] := ns2[s[0]].(prev := x)];
            Chain(ns3, s + [x]) && ns3[s[0]].prev == x && LinksOnly(ns, ns3)
  {
    var t, last := s + [x], s[|s| - 1];
    forall j | 0 <= j < |s| ensures t[j] == s[j] && s[j] != x {
      assert t[|s|] == x;
    }
    var ns1 := ns[x := ns[x].(prev := last)];
    var ns2 := ns1[last := ns1[last].(next := x)];
    var ns3 := ns2[s[0] := ns2[s[0]].(prev := x)];
    forall j | 0 <= j < |s| - 1 ensures ns3[s[j]].next == s[j + 1] && ns3[s[j + 1]].prev == s[j] {
      assert s[j] != last && s[j + 1] != s[0] by { assert t[j] == s[j] && t[j + 1] == s[j + 1] && t[0] == s[0]; }
    }
    assert s[0] != x && ns3[x].prev == last;
    LinksOnlyFields(ns, ns3);
  }

  /** Line 169: closing a chain whose first member's `prev` is its last
      member makes a ring. */
  lemma ChainClose(ns: seq<Node>, s: seq<int>)
    requires Chain(ns, s) && s != [] && Distinct(s) && ns[s[0]].prev == s[|s| - 1]
    ensures var ns' := ns[s[|s| - 1] := ns[s[|s| - 1]].(next := s[0])];
            Ring(ns', s) && LinksOnly(ns, ns')
  {
  }

  /** Lines 94-96: hooking the ring `C` in after the last member of the
      ring `R` gives one ring `R + C`. */
  lemma RingJoin(ns: seq<Node>, ns': seq<Node>, R: seq<int>, C: seq<int>)
    requires Ring(ns, R) && Ring(ns, C) && |R| > 0 && |C| > 0 && |ns| <= |ns'|
    requires forall i, j | 0 <= i < |R| && 0 <= j < |C| :: R[i] != C[j]
    requires ns'[C[|C| - 1]].next == R[0] && ns'[R[|R| - 1]].next == C[0]
    requires ns'[C[0]].prev == R[|R| - 1] && ns'[R[0]].prev == C[|C| - 1]
    requires forall i | 0 <= i < |R| - 1 :: ns'[R[i]].next == ns[R[i]].next
    requires forall i | 0 < i < |R| :: ns'[R[i]].prev == ns[R[i]].prev
    requires forall i | 0 <= i < |C| - 1 :: ns'[C[i]].next == ns[C[i]].next
    requires forall i | 0 < i < |C| :: ns'[C[i]].prev == ns[C[i]].prev
    ensures Ring(ns', R + C)
  {
    var t := R + C;
    forall i, j | 0 <= i < j < |t| ensures t[i] != t[j] {
      if j < |R| {
        assert t[i] == R[i] && t[j] == R[j];
      } else if i >= |R| {
        assert t[i] == C[i - |R|] && t[j] == C[j - |R|];
      } else {
        assert t[i] == R[i] && t[j] == C[j - |R|];
      }
    }
    forall i | 0 <= i < |t| - 1 ensures ns'[t[i]].next == t[i + 1] && ns'[t[i + 1]].prev == t[i] {
      if i < |R| - 1 {
        assert t[i] == R[i] && t[i + 1] == R[i + 1];
      } else if i >= |R| {
        assert t[i] == C[i - |R|] && t[i + 1] == C[i + 1 - |R|];
      }
    }
  }

  /** A ring read from any of its members is the same ring. */
  lemma RingRotate(ns: seq<Node>, U: seq<int>, i: int)
    requires Ring(ns, U) && 0 <= i < |U|
    ensures Ring(ns, U[i..] + U[..i])
  {
    var t := U[i..] + U[..i];
    var n := |U|;
    assert forall k | 0 <= k < n :: t[k] == if k < n - i then U[k + i] else U[k + i - n];
    forall a, b | 0 <= a < b < n ensures t[a] != t[b] {
      var a', b' := if a < n - i then a + i else a + i - n, if b < n - i then b + i else b + i - n;
      assert t[a] == U[a'] && t[b] == U[b'] && a' != b';
    }
    forall k | 0 <= k < n - 1 ensures ns[t[k]].next == t[k + 1] && ns[t[k + 1]].prev == t[k] {
      if k < n - i - 1 {
        assert t[k] == U[k + i] && t[k + 1] == U[k + i + 1];
      } else if k == n - i - 1 {
        assert t[k] == U[n - 1] && t[k + 1] == U[0];
      } else {
        assert t[k] == U[k + i - n] && t[k + 1] == U[k + i - n + 1];
      }
    }
    if i > 0 {
      assert t[n - 1] == U[i - 1] && t[0] == U[i];
    }
  }

  /** Lines 109-110: unlinking the first member of a ring of two or more
      leaves the rest as a ring. */
  lemma RingRemoveFirst(ns: seq<Node>, ns': seq<Node>, U: seq<int>)
    requires Ring(ns, U) && |U| >= 2 && |ns| <= |ns'|
    requires ns'[U[|U| - 1]].next == U[1] && ns'[U[1]].prev == U[|U| - 1]
    requires forall i | 1 <= i < |U| - 1 :: ns'[U[i]].next == ns[U[i]].next
    requires forall i | 1 < i < |U| :: ns'[U[i]].prev == ns[U[i]].prev
    ensures Ring(ns', U[1..])
  {
    var t := U[1..];
    forall a, b | 0 <= a < b < |t| ensures t[a] != t[b] {
      assert t[a] == U[a + 1] && t[b] == U[b + 1];
    }
    forall k | 0 <= k < |t| - 1 ensures ns'[t[k]].next == t[k + 1] && ns'[t[k + 1]].prev == t[k] {
      assert t[k] == U[k + 1] && t[k + 1] == U[k + 2];
    }
  }

  /** Lines 109-110: `m`'s neighbours are linked to each other, which
      takes `m` out of its ring. */
  function Unlink(ns: seq<Node>, m: int): (r: seq<Node>)
    requires Shape(ns) && IsAddr(ns, m)
    ensures Shape(r) && LinksOnly(ns, r)
    ensures forall x | 0 <= x < |ns| && x != ns[m].prev && x != ns[m].next :: r[x] == ns[x]
    ensures r[ns[m].prev].next == ns[m].next && r[ns[m].next].prev == ns[m].prev
    ensures ns[m].prev != ns[m].next ==>
      r[ns[m].prev].prev == ns[ns[m].prev].prev && r[ns[m].next].next == ns[ns[m].next].next
  {
    assert NodeShape(ns, m);
    var p, n := ns[m].prev, ns[m].next;
    assert NodeShape(ns, p);
    ShapeUpdate(ns, p, ns[p].(next := n));
    var ns1 := ns[p := ns[p].(next := n)];
    assert NodeShape(ns1, n);
    ShapeUpdate(ns1, n, ns1[n].(prev := p));
    ns1[n := ns1[n].(prev := p)]
  }

  /** Unlinking member `i` of a ring of two or more leaves the others as
      a ring read from the member after it. */
  lemma UnlinkRing(ns: seq<Node>, T: seq<int>, i: int)
    requires Shape(ns) && Ring(ns, T) && |T| >= 2 && 0 <= i < |T|
    ensures Ring(Unlink(ns, T[i]), T[i + 1..] + T[..i])
  {
    var U := T[i..] + T[..i];
    RingRotate(ns, T, i);
    assert U[0] == T[i] && U[1..] == T[i + 1..] + T[..i];
    UnlinkHead(ns, U);
  }

  /** Unlinking the first member of a ring of two or more leaves the rest
      as a ring. */
  lemma UnlinkHead(ns: seq<Node>, U: seq<int>)
    requires Shape(ns) && Ring(ns, U) && |U| >= 2
    ensures Ring(Unlink(ns, U[0]), U[1..])
  {
    var r := Unlink(ns, U[0]);
    var n := |U|;
    assert ns[U[0]].prev == U[n - 1] && ns[U[0]].next == U[1];
    forall k | 1 <= k < n - 1 ensures r[U[k]].next == ns[U[k]].next {
      assert U[k] != U[n - 1];
    }
    forall k | 1 < k < n ensures r[U[k]].prev == ns[U[k]].prev {
      assert U[k] != U[1];
    }
    RingRemoveFirst(ns, r, U);
  }
}
