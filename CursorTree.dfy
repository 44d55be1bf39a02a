/**
 * The tree a cursor walks over, seen through the cursor capability contract:
 * a fixed radix, the set of positions (paths of child indices from the root)
 * at which `atNode()` holds, and the value carried by some of them.
 *
 * Besides navigation, this module defines the reference traversals against
 * which the explicit-stack iterators are proved: pre-, post- and in-order
 * enumerations of the positions of a subtree, written as plain recursion.
 */
module CursorTree {

  type Path = seq<nat>

  datatype Tree = Tree(radix: nat, nodes: set<Path>, values: map<Path, nat>)

  datatype Order = PreOrder | PostOrder | InOrder

  /** A tree a cursor can describe: it has a root, every path is made of
      child indices below the radix, it is closed under prefixes (every
      ancestor of a node is a node) and values sit on nodes. */
  predicate ValidTree(t: Tree) {
    && [] in t.nodes
    && (forall p, i :: p in t.nodes && 0 <= i < |p| ==> p[i] < t.radix)
    && (forall p, k :: p in t.nodes && 0 <= k <= |p| ==> p[..k] in t.nodes)
    && t.values.Keys <= t.nodes
  }

  /** canGoChildNode(i): slot i of the node at p leads to a real subtree. */
  predicate CanGoChildNode(t: Tree, p: Path, i: nat) {
    p + [i] in t.nodes
  }

  /** atValue() at position p. */
  predicate AtValue(t: Tree, p: Path) {
    p in t.values
  }

  /** goParent(): one step up; at the root it does nothing. */
  function GoParent(p: Path): (r: Path)
    ensures p == [] ==> r == []
    ensures p != [] ==> p == r + [p[|p| - 1]]
  {
    if p == [] then [] else p[..|p| - 1]
  }

  /** The child visited at scan index c: with ReverseChildren set, scan index
      c stands for child radix-1-c, otherwise for child c. */
  function ChildAt(t: Tree, rev: bool, c: nat): (i: nat)
    requires c < t.radix
    ensures i < t.radix
  {
    if rev then t.radix - 1 - c else c
  }

  /** The positions strictly below p: the measure the traversals descend on. */
  ghost function StrictDesc(t: Tree, p: Path): set<Path> {
    set q | q in t.nodes && p < q
  }

  lemma DescShrinks(t: Tree, p: Path, q: Path)
    requires q in t.nodes && p < q
    ensures |StrictDesc(t, q)| < |StrictDesc(t, p)|
  {
    var a, b := StrictDesc(t, q), StrictDesc(t, p);
    forall r | r in a ensures r in b {
      assert q == r[..|q|];
      assert p == q[..|p|] == r[..|p|];
    }
    assert q in b - a;
    assert b == a + (b - a);
    assert |b| == |a| + |b - a|;
  }

  /** The position itself, if the traversal stops there. */
  ghost function Self(t: Tree, all: bool, p: Path): seq<Path> {
    if all || AtValue(t, p) then [p] else []
  }

  /** The stops of a traversal of the subtree at p: the stops of the children
      taken in scan order, with p itself before them (pre-order), after them
      (post-order) or between the lower and the upper half (in-order). With
      `all` every node is a stop, otherwise only value-bearing ones are. */
  ghost function Enum(t: Tree, ord: Order, rev: bool, all: bool, p: Path): seq<Path>
    decreases |StrictDesc(t, p)|, 1, 0
  {
    match ord
    case PreOrder => Self(t, all, p) + Span(t, ord, rev, all, p, 0, t.radix)
    case PostOrder => Span(t, ord, rev, all, p, 0, t.radix) + Self(t, all, p)
    case InOrder =>
      Span(t, ord, rev, all, p, 0, t.radix / 2) + Self(t, all, p)
      + Span(t, ord, rev, all, p, t.radix / 2, t.radix)
  }

  /** The stops of the subtrees of p reached through scan indices lo..hi-1. */
  ghost function Span(t: Tree, ord: Order, rev: bool, all: bool, p: Path, lo: nat, hi: nat): seq<Path>
    requires hi <= t.radix
    decreases |StrictDesc(t, p)|, 0, hi - lo
  {
    if lo >= hi then []
    else
      var q := p + [ChildAt(t, rev, lo)];
      (if q in t.nodes then DescShrinks(t, p, q); Enum(t, ord, rev, all, q) else [])
      + Span(t, ord, rev, all, p, lo + 1, hi)
  }

  /** The contribution of scan index c alone. */
  ghost function Sub(t: Tree, ord: Order, rev: bool, all: bool, p: Path, c: nat): seq<Path>
    requires c < t.radix
  {
    var q := p + [ChildAt(t, rev, c)];
    if q in t.nodes then Enum(t, ord, rev, all, q) else []
  }

  lemma SpanStep(t: Tree, ord: Order, rev: bool, all: bool, p: Path, lo: nat, hi: nat)
    requires lo < hi <= t.radix
    ensures Span(t, ord, rev, all, p, lo, hi)
         == Sub(t, ord, rev, all, p, lo) + Span(t, ord, rev, all, p, lo + 1, hi)
  {
  }

  lemma {:induction false} SpanSplit(t: Tree, ord: Order, rev: bool, all: bool, p: Path, lo: nat, mid: nat, hi: nat)
    requires lo <= mid <= hi <= t.radix
    ensures Span(t, ord, rev, all, p, lo, hi)
         == Span(t, ord, rev, all, p, lo, mid) + Span(t, ord, rev, all, p, mid, hi)
    decreases mid - lo
  {
    if lo < mid {
      SpanSplit(t, ord, rev, all, p, lo + 1, mid, hi);
      SpanStep(t, ord, rev, all, p, lo, hi);
      SpanStep(t, ord, rev, all, p, lo, mid);
    }
  }

  /** No child present at scan indices lo..hi-1: nothing to visit there. */
  lemma {:induction false} SpanNone(t: Tree, ord: Order, rev: bool, all: bool, p: Path, lo: nat, hi: nat)
    requires hi <= t.radix
    requires forall c :: lo <= c < hi ==> !CanGoChildNode(t, p, ChildAt(t, rev, c))
    ensures Span(t, ord, rev, all, p, lo, hi) == []
    decreases hi - lo
  {
    if lo < hi {
      SpanNone(t, ord, rev, all, p, lo + 1, hi);
    }
  }

  /** The first present child c at or after lo comes first, then the rest. */
  lemma SpanFirst(t: Tree, ord: Order, rev: bool, all: bool, p: Path, lo: nat, c: nat, hi: nat)
    requires lo <= c < hi <= t.radix
    requires forall k :: lo <= k < c ==> !CanGoChildNode(t, p, ChildAt(t, rev, k))
    requires CanGoChildNode(t, p, ChildAt(t, rev, c))
    ensures Span(t, ord, rev, all, p, lo, hi)
         == Enum(t, ord, rev, all, p + [ChildAt(t, rev, c)]) + Span(t, ord, rev, all, p, c + 1, hi)
  {
    SpanSplit(t, ord, rev, all, p, lo, c, hi);
    SpanNone(t, ord, rev, all, p, lo, c);
    SpanStep(t, ord, rev, all, p, c, hi);
  }

  // ---------------------------------------------------------------------
  // What a traversal visits: exactly the stops of the subtree, each once.
  // ---------------------------------------------------------------------

  /** Every stop of the traversal at p lies in the subtree of p; a stop
      inside a span lies below a child whose scan index is in the span. */
  lemma {:induction false} EnumWithin(t: Tree, ord: Order, rev: bool, all: bool, p: Path, q: Path)
    requires q in Enum(t, ord, rev, all, p)
    ensures p <= q && (q == p || q in t.nodes) && (all || AtValue(t, q))
    decreases |StrictDesc(t, p)|, 1, 0
  {
    var R := t.radix;
    if q !in Self(t, all, p) {
      if !ord.InOrder? {
        SpanWithin(t, ord, rev, all, p, 0, R, q);
      } else if q in Span(t, ord, rev, all, p, 0, R / 2) {
        SpanWithin(t, ord, rev, all, p, 0, R / 2, q);
      } else {
        SpanWithin(t, ord, rev, all, p, R / 2, R, q);
      }
    }
  }

  lemma {:induction false} SpanWithin(t: Tree, ord: Order, rev: bool, all: bool, p: Path, lo: nat, hi: nat, q: Path)
    requires hi <= t.radix
    requires q in Span(t, ord, rev, all, p, lo, hi)
    ensures p < q && q in t.nodes && (all || AtValue(t, q))
    ensures q[|p|] < t.radix && lo <= ChildAt(t, rev, q[|p|]) < hi
    decreases |StrictDesc(t, p)|, 0, hi - lo
  {
    SpanStep(t, ord, rev, all, p, lo, hi);
    var child := p + [ChildAt(t, rev, lo)];
    if q in Sub(t, ord, rev, all, p, lo) {
      DescShrinks(t, p, child);
      EnumWithin(t, ord, rev, all, child, q);
      assert q[..|child|] == child;
      assert q[|p|] == child[|p|];
    } else {
      SpanWithin(t, ord, rev, all, p, lo + 1, hi, q);
    }
  }

  /** Every stop of the subtree at p is visited. */
  lemma {:induction false} EnumComplete(t: Tree, ord: Order, rev: bool, all: bool, p: Path, q: Path)
    requires ValidTree(t)
    requires q in t.nodes && p <= q && (all || AtValue(t, q))
    ensures q in Enum(t, ord, rev, all, p)
    decreases |StrictDesc(t, p)|, 1, 0
  {
    var R := t.radix;
    if q != p {
      assert q[..|q|] == q;
      var s := ChildAt(t, rev, q[|p|]);
      match ord
      case PreOrder => SpanComplete(t, ord, rev, all, p, 0, R, q);
      case PostOrder => SpanComplete(t, ord, rev, all, p, 0, R, q);
      case InOrder =>
        if s < R / 2 {
          SpanComplete(t, ord, rev, all, p, 0, R / 2, q);
        } else {
          SpanComplete(t, ord, rev, all, p, R / 2, R, q);
        }
    }
  }

  lemma {:induction false} SpanComplete(t: Tree, ord: Order, rev: bool, all: bool, p: Path, lo: nat, hi: nat, q: Path)
    requires ValidTree(t) && hi <= t.radix
    requires q in t.nodes && p < q && (all || AtValue(t, q))
    requires q[|p|] < t.radix && lo <= ChildAt(t, rev, q[|p|]) < hi
    ensures q in Span(t, ord, rev, all, p, lo, hi)
    decreases |StrictDesc(t, p)|, 0, hi - lo
  {
    SpanStep(t, ord, rev, all, p, lo, hi);
    var head, tail := Sub(t, ord, rev, all, p, lo), Span(t, ord, rev, all, p, lo + 1, hi);
    if ChildAt(t, rev, q[|p|]) == lo {
      var child := p + [ChildAt(t, rev, lo)];
      assert child == q[..|p| + 1];
      assert child in t.nodes;
      DescShrinks(t, p, child);
      EnumComplete(t, ord, rev, all, child, q);
      assert q in head;
    } else {
      SpanComplete(t, ord, rev, all, p, lo + 1, hi, q);
      assert q in tail;
    }
    assert q in head + tail;
  }

  /** The stops of a whole traversal are exactly the nodes (with `all`) or
      exactly the value-bearing positions (without). */
  lemma EnumMembers(t: Tree, ord: Order, rev: bool, all: bool, q: Path)
    requires ValidTree(t)
    ensures q in Enum(t, ord, rev, all, []) <==> q in t.nodes && (all || AtValue(t, q))
  {
    if q in Enum(t, ord, rev, all, []) {
      EnumWithin(t, ord, rev, all, [], q);
    }
    if q in t.nodes && (all || AtValue(t, q)) {
      EnumComplete(t, ord, rev, all, [], q);
    }
  }

  predicate Distinct<T(==)>(s: seq<T>) {
    forall i, j :: 0 <= i < j < |s| ==> s[i] != s[j]
  }

  lemma DistinctConcat<T>(a: seq<T>, b: seq<T>)
    requires Distinct(a) && Distinct(b)
    requires forall x :: x in a ==> x !in b
    ensures Distinct(a + b)
  {
    forall i, j | 0 <= i < j < |a + b| ensures (a + b)[i] != (a + b)[j] {
      if j >= |a| && i < |a| {
        assert (a + b)[i] in a && (a + b)[j] in b;
      }
    }
  }

  /** No position is visited twice. */
  lemma {:induction false} EnumDistinct(t: Tree, ord: Order, rev: bool, all: bool, p: Path)
    ensures Distinct(Enum(t, ord, rev, all, p))
    decreases |StrictDesc(t, p)|, 1, 0
  {
    var R := t.radix;
    var self := Self(t, all, p);
    forall q | q in self ensures q !in Span(t, ord, rev, all, p, 0, R) && q !in Span(t, ord, rev, all, p, 0, R / 2) && q !in Span(t, ord, rev, all, p, R / 2, R) {
      if q in Span(t, ord, rev, all, p, 0, R) { SpanWithin(t, ord, rev, all, p, 0, R, q); }
      if q in Span(t, ord, rev, all, p, 0, R / 2) { SpanWithin(t, ord, rev, all, p, 0, R / 2, q); }
      if q in Span(t, ord, rev, all, p, R / 2, R) { SpanWithin(t, ord, rev, all, p, R / 2, R, q); }
    }
    match ord
    case PreOrder =>
      SpanDistinct(t, ord, rev, all, p, 0, R);
      DistinctConcat(self, Span(t, ord, rev, all, p, 0, R));
    case PostOrder =>
      SpanDistinct(t, ord, rev, all, p, 0, R);
      DistinctConcat(Span(t, ord, rev, all, p, 0, R), self);
    case InOrder =>
      var lower, upper := Span(t, ord, rev, all, p, 0, R / 2), Span(t, ord, rev, all, p, R / 2, R);
      SpanDistinct(t, ord, rev, all, p, 0, R / 2);
      SpanDistinct(t, ord, rev, all, p, R / 2, R);
      DistinctConcat(lower, self);
      forall q | q in lower + self ensures q !in upper {
        if q in lower && q in upper {
          SpanWithin(t, ord, rev, all, p, 0, R / 2, q);
          SpanWithin(t, ord, rev, all, p, R / 2, R, q);
        }
      }
      DistinctConcat(lower + self, upper);
  }

  lemma {:induction false} SpanDistinct(t: Tree, ord: Order, rev: bool, all: bool, p: Path, lo: nat, hi: nat)
    requires hi <= t.radix
    ensures Distinct(Span(t, ord, rev, all, p, lo, hi))
    decreases |StrictDesc(t, p)|, 0, hi - lo
  {
    if lo < hi {
      SpanStep(t, ord, rev, all, p, lo, hi);
      var child := p + [ChildAt(t, rev, lo)];
      var head, rest := Sub(t, ord, rev, all, p, lo), Span(t, ord, rev, all, p, lo + 1, hi);
      SpanDistinct(t, ord, rev, all, p, lo + 1, hi);
      if child in t.nodes {
        DescShrinks(t, p, child);
        EnumDistinct(t, ord, rev, all, child);
        forall q | q in head ensures q !in rest {
          EnumWithin(t, ord, rev, all, child, q);
          assert q[..|child|] == child;
          if q in rest {
            SpanWithin(t, ord, rev, all, p, lo + 1, hi, q);
          }
        }
      }
      DistinctConcat(head, rest);
    }
  }

  // ---------------------------------------------------------------------
  // Reversal: ReverseChildren mirrors the traversal.
  // ---------------------------------------------------------------------

  function Reverse<T>(s: seq<T>): (r: seq<T>)
    ensures |r| == |s|
  {
    if s == [] then [] else Reverse(s[1..]) + [s[0]]
  }

  lemma {:induction false} ReverseConcat<T>(a: seq<T>, b: seq<T>)
    ensures Reverse(a + b) == Reverse(b) + Reverse(a)
  {
    if a == [] {
      assert a + b == b;
    } else {
      assert (a + b)[1..] == a[1..] + b;
      ReverseConcat(a[1..], b);
    }
  }

  /** The order whose stops come in the opposite sequence once children are
      scanned the other way round. */
  function Dual(ord: Order): Order {
    match ord
    case PreOrder => PostOrder
    case PostOrder => PreOrder
    case InOrder => InOrder
  }

  /** Reversing the child scan reverses the whole traversal: the reversed
      pre-order is the mirrored post-order and vice versa, and (for an even
      radix) the reversed in-order is the mirrored in-order. */
  lemma {:induction false} EnumMirror(t: Tree, ord: Order, rev: bool, all: bool, p: Path)
    requires ord == InOrder ==> t.radix % 2 == 0
    ensures Reverse(Enum(t, ord, rev, all, p)) == Enum(t, Dual(ord), !rev, all, p)
    decreases |StrictDesc(t, p)|, 2, 0
  {
    match ord
    case PreOrder => PreMirror(t, rev, all, p);
    case PostOrder => PostMirror(t, rev, all, p);
    case InOrder => InMirror(t, rev, all, p);
  }

  lemma {:induction false} PreMirror(t: Tree, rev: bool, all: bool, p: Path)
    ensures Reverse(Enum(t, PreOrder, rev, all, p)) == Enum(t, PostOrder, !rev, all, p)
    decreases |StrictDesc(t, p)|, 1, 0
  {
    var self, kids := Self(t, all, p), Span(t, PreOrder, rev, all, p, 0, t.radix);
    assert Reverse(self) == self;
    SpanMirror(t, PreOrder, rev, all, p, 0, t.radix);
    ReverseConcat(self, kids);
  }

  lemma {:induction false} PostMirror(t: Tree, rev: bool, all: bool, p: Path)
    ensures Reverse(Enum(t, PostOrder, rev, all, p)) == Enum(t, PreOrder, !rev, all, p)
    decreases |StrictDesc(t, p)|, 1, 0
  {
    var self, kids := Self(t, all, p), Span(t, PostOrder, rev, all, p, 0, t.radix);
    assert Reverse(self) == self;
    SpanMirror(t, PostOrder, rev, all, p, 0, t.radix);
    ReverseConcat(kids, self);
  }

  lemma {:induction false} InMirror(t: Tree, rev: bool, all: bool, p: Path)
    requires t.radix % 2 == 0
    ensures Reverse(Enum(t, InOrder, rev, all, p)) == Enum(t, InOrder, !rev, all, p)
    decreases |StrictDesc(t, p)|, 1, 0
  {
    var R, M := t.radix, t.radix / 2;
    assert R - M == M;
    var self := Self(t, all, p);
    assert Reverse(self) == self;
    var lower, upper := Span(t, InOrder, rev, all, p, 0, M), Span(t, InOrder, rev, all, p, M, R);
    SpanMirror(t, InOrder, rev, all, p, 0, M);
    SpanMirror(t, InOrder, rev, all, p, M, R);
    assert Reverse(lower) == Span(t, InOrder, !rev, all, p, M, R);
    assert Reverse(upper) == Span(t, InOrder, !rev, all, p, 0, M);
    ReverseConcat(lower + self, upper);
    ReverseConcat(lower, self);
  }

  lemma {:induction false} SpanMirror(t: Tree, ord: Order, rev: bool, all: bool, p: Path, lo: nat, hi: nat)
    requires ord == InOrder ==> t.radix % 2 == 0
    requires lo <= hi <= t.radix
    ensures Reverse(Span(t, ord, rev, all, p, lo, hi))
         == Span(t, Dual(ord), !rev, all, p, t.radix - hi, t.radix - lo)
    decreases |StrictDesc(t, p)|, 0, hi - lo
  {
    if lo < hi {
      SpanMirror(t, ord, rev, all, p, lo + 1, hi);
      var child := p + [ChildAt(t, rev, lo)];
      if child in t.nodes {
        DescShrinks(t, p, child);
        EnumMirror(t, ord, rev, all, child);
      }
      SpanMirrorStep(t, ord, rev, all, p, lo, hi);
    } else {
      assert Reverse<Path>([]) == [];
    }
  }

  /** One step of SpanMirror: the mirrored first slot becomes the last. */
  lemma SpanMirrorStep(t: Tree, ord: Order, rev: bool, all: bool, p: Path, lo: nat, hi: nat)
    requires lo < hi <= t.radix
    requires Reverse(Sub(t, ord, rev, all, p, lo)) == Sub(t, Dual(ord), !rev, all, p, t.radix - 1 - lo)
    requires Reverse(Span(t, ord, rev, all, p, lo + 1, hi))
          == Span(t, Dual(ord), !rev, all, p, t.radix - hi, t.radix - lo - 1)
    ensures Reverse(Span(t, ord, rev, all, p, lo, hi))
         == Span(t, Dual(ord), !rev, all, p, t.radix - hi, t.radix - lo)
  {
    var R := t.radix;
    SpanStep(t, ord, rev, all, p, lo, hi);
    ReverseConcat(Sub(t, ord, rev, all, p, lo), Span(t, ord, rev, all, p, lo + 1, hi));
    SpanSplit(t, Dual(ord), !rev, all, p, R - hi, R - lo - 1, R - lo);
    SpanStep(t, Dual(ord), !rev, all, p, R - lo - 1, R - lo);
  }
}
