/**
 * The three cursor iterators: pre-order, post-order and in-order walks that
 * turn parent/child navigation into a sequence of stops, using an explicit
 * stack with one frame per open ancestor. A frame holds the scan index of
 * the last child done (NoChild before the first) and, for in-order, whether
 * the node's lower half of children is finished.
 *
 * Each iterator is proved against the reference traversal of CursorTree:
 * the stops still to come, `Stops()`, are always a suffix of the matching
 * `Enum`, and `Next()` removes exactly the first of them.
 */
module CursorIterator {
  import opened CursorTree

  /** NoChild() is the largest size_t, and the scans start at NoChild()+1,
      which wraps to 0; modelled as -1, so that -1 + 1 == 0. */
  const NoChild: int := -1

  function Last<T>(s: seq<T>): T
    requires s != []
  {
    s[|s| - 1]
  }

  function DropLast<T>(s: seq<T>): (r: seq<T>)
    requires s != []
    ensures |r| == |s| - 1
  {
    s[..|s| - 1]
  }

  /** Each frame below the top records, as a scan index, the child the
      cursor went down to from that level. */
  ghost predicate Aligned(t: Tree, rev: bool, frames: seq<int>, path: Path) {
    forall i :: 0 <= i < |path| && i < |frames| ==>
      0 <= frames[i] < t.radix && path[i] == ChildAt(t, rev, frames[i])
  }

  lemma AlignedEnter(t: Tree, rev: bool, frames: seq<int>, path: Path, c: nat, l: int)
    requires Aligned(t, rev, frames, path) && |frames| == |path| + 1 && c < t.radix
    ensures Aligned(t, rev, DropLast(frames) + [c, l], path + [ChildAt(t, rev, c)])
  {
    var frames', path' := DropLast(frames) + [c, l], path + [ChildAt(t, rev, c)];
    forall i | 0 <= i < |path'| && i < |frames'|
      ensures 0 <= frames'[i] < t.radix && path'[i] == ChildAt(t, rev, frames'[i])
    {
      if i < |path| {
        assert frames'[i] == frames[i] && path'[i] == path[i];
      }
    }
  }

  lemma AlignedReplaceTop(t: Tree, rev: bool, frames: seq<int>, path: Path, l: int)
    requires Aligned(t, rev, frames, path) && |frames| == |path| + 1
    ensures Aligned(t, rev, DropLast(frames) + [l], path)
  {
    var frames' := DropLast(frames) + [l];
    assert forall i :: 0 <= i < |path| ==> frames'[i] == frames[i];
  }

  lemma AlignedAscend(t: Tree, rev: bool, frames: seq<int>, path: Path)
    requires Aligned(t, rev, frames, path) && frames != []
    ensures Aligned(t, rev, DropLast(frames), GoParent(path))
  {
    var path' := GoParent(path);
    assert forall i :: 0 <= i < |path'| ==> path'[i] == path[i];
  }

  /** The same for in-order frames. */
  ghost predicate AlignedIn(t: Tree, rev: bool, frames: seq<IterPos>, path: Path) {
    forall i :: 0 <= i < |path| && i < |frames| ==>
      0 <= frames[i].lastChildDone < t.radix && path[i] == ChildAt(t, rev, frames[i].lastChildDone)
  }

  lemma AlignedInEnter(t: Tree, rev: bool, frames: seq<IterPos>, path: Path, c: nat, pos: IterPos)
    requires AlignedIn(t, rev, frames, path) && |frames| == |path| + 1 && c < t.radix
    ensures AlignedIn(t, rev, DropLast(frames) + [Last(frames).(lastChildDone := c), pos], path + [ChildAt(t, rev, c)])
  {
    var frames', path' := DropLast(frames) + [Last(frames).(lastChildDone := c), pos], path + [ChildAt(t, rev, c)];
    forall i | 0 <= i < |path'| && i < |frames'|
      ensures 0 <= frames'[i].lastChildDone < t.radix && path'[i] == ChildAt(t, rev, frames'[i].lastChildDone)
    {
      if i < |path| {
        assert frames'[i] == frames[i] && path'[i] == path[i];
      }
    }
  }

  lemma AlignedInReplaceTop(t: Tree, rev: bool, frames: seq<IterPos>, path: Path, pos: IterPos)
    requires AlignedIn(t, rev, frames, path) && |frames| == |path| + 1
    ensures AlignedIn(t, rev, DropLast(frames) + [pos], path)
  {
    var frames' := DropLast(frames) + [pos];
    assert forall i :: 0 <= i < |path| ==> frames'[i] == frames[i];
  }

  lemma AlignedInAscend(t: Tree, rev: bool, frames: seq<IterPos>, path: Path)
    requires AlignedIn(t, rev, frames, path) && frames != []
    ensures AlignedIn(t, rev, DropLast(frames), GoParent(path))
  {
    var path' := GoParent(path);
    assert forall i :: 0 <= i < |path'| ==> path'[i] == path[i];
  }

  /** The children not yet entered under a frame whose last child done is
      at scan index l: part of the termination measure of the iterators. */
  ghost function Unentered(t: Tree, rev: bool, p: Path, l: int): nat
    requires -1 <= l
  {
    |Span(t, PreOrder, rev, true, p, l + 1, t.radix)|
  }

  /** Entering the first present child c after l: it leaves the unentered
      set together with its subtree, whose other members stay unentered. */
  lemma UnenteredDescend(t: Tree, rev: bool, p: Path, l: int, c: nat)
    requires -1 <= l < c < t.radix
    requires forall k :: l + 1 <= k < c ==> !CanGoChildNode(t, p, ChildAt(t, rev, k))
    requires CanGoChildNode(t, p, ChildAt(t, rev, c))
    ensures Unentered(t, rev, p, l)
         == 1 + Unentered(t, rev, p + [ChildAt(t, rev, c)], NoChild) + Unentered(t, rev, p, c)
  {
    var child := p + [ChildAt(t, rev, c)];
    SpanFirst(t, PreOrder, rev, true, p, l + 1, c, t.radix);
    assert Enum(t, PreOrder, rev, true, child)
        == [child] + Span(t, PreOrder, rev, true, child, 0, t.radix);
  }

  lemma UnenteredNone(t: Tree, rev: bool, p: Path, l: int)
    requires -1 <= l <= t.radix
    requires forall k :: l + 1 <= k < t.radix ==> !CanGoChildNode(t, p, ChildAt(t, rev, k))
    ensures Unentered(t, rev, p, l) == 0
  {
    SpanNone(t, PreOrder, rev, true, p, l + 1, t.radix);
  }

  // =====================================================================
  // Pre-order
  // =====================================================================

  ghost predicate PreFrames(t: Tree, frames: seq<int>, path: Path) {
    && (|frames| == |path| + 1 || (frames == [] && path == []))
    && (forall i :: 0 <= i < |frames| ==> NoChild <= frames[i] < t.radix)
  }

  /** The stops still to come below the open frames, innermost first. */
  ghost function PendingPre(t: Tree, rev: bool, all: bool, frames: seq<int>, path: Path): seq<Path>
    requires PreFrames(t, frames, path)
    decreases |frames|
  {
    if frames == [] then []
    else
      Span(t, PreOrder, rev, all, path, Last(frames) + 1, t.radix)
      + (if path == [] then [] else PendingPre(t, rev, all, DropLast(frames), DropLast(path)))
  }

  ghost function WorkPre(t: Tree, rev: bool, frames: seq<int>, path: Path): nat
    requires PreFrames(t, frames, path)
    decreases |frames|
  {
    if frames == [] then 0
    else
      3 * Unentered(t, rev, path, Last(frames)) + 1
      + (if path == [] then 0 else WorkPre(t, rev, DropLast(frames), DropLast(path)))
  }

  /** A pre-order descent into the first present child c: the child is the
      next stop if it is one, and nothing else changes in what is left. */
  lemma PreDescend(t: Tree, rev: bool, all: bool, frames: seq<int>, path: Path, c: nat)
    requires PreFrames(t, frames, path) && frames != []
    requires Last(frames) < c < t.radix
    requires forall k :: Last(frames) + 1 <= k < c ==> !CanGoChildNode(t, path, ChildAt(t, rev, k))
    requires CanGoChildNode(t, path, ChildAt(t, rev, c))
    ensures PreFrames(t, DropLast(frames) + [c, NoChild], path + [ChildAt(t, rev, c)])
    ensures PendingPre(t, rev, all, frames, path)
         == Self(t, all, path + [ChildAt(t, rev, c)])
            + PendingPre(t, rev, all, DropLast(frames) + [c, NoChild], path + [ChildAt(t, rev, c)])
  {
    var child := path + [ChildAt(t, rev, c)];
    var mid := DropLast(frames) + [c];
    assert mid + [NoChild] == DropLast(frames) + [c, NoChild];
    assert PreFrames(t, mid, path) by { PreReplaceTop(t, rev, all, frames, path, c); }
    assert PreFrames(t, mid + [NoChild], child) by { PrePush(t, rev, all, mid, path, ChildAt(t, rev, c), NoChild); }
    var self, below := Self(t, all, child), Span(t, PreOrder, rev, all, child, 0, t.radix);
    var here, rest := Span(t, PreOrder, rev, all, path, c + 1, t.radix), PreRest(t, rev, all, frames, path);
    calc {
      PendingPre(t, rev, all, frames, path);
      { PreReplaceTop(t, rev, all, frames, path, c); }
      Span(t, PreOrder, rev, all, path, Last(frames) + 1, t.radix) + rest;
      { PreDescendFrame(t, rev, all, path, Last(frames), c); }
      (self + below + here) + rest;
      self + (below + (here + rest));
      { PreReplaceTop(t, rev, all, frames, path, c); }
      self + (below + PendingPre(t, rev, all, mid, path));
      { PrePush(t, rev, all, mid, path, ChildAt(t, rev, c), NoChild); }
      self + PendingPre(t, rev, all, mid + [NoChild], child);
    }
  }

  /** The frame-level step of a pre-order descent. */
  lemma PreDescendFrame(t: Tree, rev: bool, all: bool, p: Path, l: int, c: nat)
    requires NoChild <= l < c < t.radix
    requires forall k :: l + 1 <= k < c ==> !CanGoChildNode(t, p, ChildAt(t, rev, k))
    requires CanGoChildNode(t, p, ChildAt(t, rev, c))
    ensures Span(t, PreOrder, rev, all, p, l + 1, t.radix)
         == Self(t, all, p + [ChildAt(t, rev, c)]) + Span(t, PreOrder, rev, all, p + [ChildAt(t, rev, c)], 0, t.radix)
            + Span(t, PreOrder, rev, all, p, c + 1, t.radix)
  {
    var child := p + [ChildAt(t, rev, c)];
    SpanFirst(t, PreOrder, rev, all, p, l + 1, c, t.radix);
    assert Enum(t, PreOrder, rev, all, child)
        == Self(t, all, child) + Span(t, PreOrder, rev, all, child, 0, t.radix);
  }

  /** What the frames below the top one still have to emit. */
  ghost function PreRest(t: Tree, rev: bool, all: bool, frames: seq<int>, path: Path): seq<Path>
    requires PreFrames(t, frames, path) && frames != []
  {
    if path == [] then [] else PendingPre(t, rev, all, DropLast(frames), DropLast(path))
  }

  /** Replacing the top frame changes only that frame's share. */
  lemma PreReplaceTop(t: Tree, rev: bool, all: bool, frames: seq<int>, path: Path, l: int)
    requires PreFrames(t, frames, path) && frames != [] && NoChild <= l < t.radix
    ensures PreFrames(t, DropLast(frames) + [l], path)
    ensures PendingPre(t, rev, all, frames, path)
         == Span(t, PreOrder, rev, all, path, Last(frames) + 1, t.radix) + PreRest(t, rev, all, frames, path)
    ensures PendingPre(t, rev, all, DropLast(frames) + [l], path)
         == Span(t, PreOrder, rev, all, path, l + 1, t.radix) + PreRest(t, rev, all, frames, path)
  {
    var frames' := DropLast(frames) + [l];
    assert DropLast(frames') == DropLast(frames) && Last(frames') == l;
  }

  /** Opening a frame for a child puts that frame's share in front. */
  lemma PrePush(t: Tree, rev: bool, all: bool, frames: seq<int>, path: Path, x: nat, l: int)
    requires PreFrames(t, frames, path) && frames != [] && NoChild <= l < t.radix
    ensures PreFrames(t, frames + [l], path + [x])
    ensures PendingPre(t, rev, all, frames + [l], path + [x])
         == Span(t, PreOrder, rev, all, path + [x], l + 1, t.radix) + PendingPre(t, rev, all, frames, path)
  {
    assert DropLast(frames + [l]) == frames && Last(frames + [l]) == l;
    assert DropLast(path + [x]) == path;
  }

  lemma PreDescendFrames(t: Tree, rev: bool, frames: seq<int>, path: Path, c: nat)
    requires PreFrames(t, frames, path) && frames != []
    requires Last(frames) < c < t.radix
    ensures PreFrames(t, DropLast(frames) + [c, NoChild], path + [ChildAt(t, rev, c)])
    ensures DropLast(DropLast(frames) + [c, NoChild]) == DropLast(frames) + [c]
    ensures Last(DropLast(frames) + [c, NoChild]) == NoChild
    ensures DropLast(path + [ChildAt(t, rev, c)]) == path
    ensures DropLast(DropLast(frames) + [c]) == DropLast(frames) && Last(DropLast(frames) + [c]) == c
    ensures PreFrames(t, DropLast(frames) + [c], path)
  {
  }

  lemma PreDescendWork(t: Tree, rev: bool, frames: seq<int>, path: Path, c: nat)
    requires PreFrames(t, frames, path) && frames != []
    requires Last(frames) < c < t.radix
    requires forall k :: Last(frames) + 1 <= k < c ==> !CanGoChildNode(t, path, ChildAt(t, rev, k))
    requires CanGoChildNode(t, path, ChildAt(t, rev, c))
    ensures PreFrames(t, DropLast(frames) + [c, NoChild], path + [ChildAt(t, rev, c)])
    ensures WorkPre(t, rev, DropLast(frames) + [c, NoChild], path + [ChildAt(t, rev, c)])
          < WorkPre(t, rev, frames, path)
  {
    var l, child := Last(frames), path + [ChildAt(t, rev, c)];
    var mid, frames' := DropLast(frames) + [c], DropLast(frames) + [c, NoChild];
    PreDescendFrames(t, rev, frames, path, c);
    var rest := if path == [] then 0 else WorkPre(t, rev, DropLast(frames), DropLast(path));
    assert WorkPre(t, rev, frames', child)
        == 3 * Unentered(t, rev, child, NoChild) + 1 + WorkPre(t, rev, mid, path);
    assert WorkPre(t, rev, mid, path) == 3 * Unentered(t, rev, path, c) + 1 + rest;
    assert WorkPre(t, rev, frames, path) == 3 * Unentered(t, rev, path, l) + 1 + rest;
    UnenteredDescend(t, rev, path, l, c);
  }

  /** A pre-order ascent from a frame whose children are all done. */
  lemma PrePop(t: Tree, rev: bool, all: bool, frames: seq<int>, path: Path)
    requires PreFrames(t, frames, path) && frames != []
    requires forall k :: Last(frames) + 1 <= k < t.radix ==> !CanGoChildNode(t, path, ChildAt(t, rev, k))
    ensures PreFrames(t, DropLast(frames), GoParent(path))
    ensures PendingPre(t, rev, all, frames, path) == PendingPre(t, rev, all, DropLast(frames), GoParent(path))
    ensures WorkPre(t, rev, DropLast(frames), GoParent(path)) < WorkPre(t, rev, frames, path)
  {
    SpanNone(t, PreOrder, rev, all, path, Last(frames) + 1, t.radix);
    UnenteredNone(t, rev, path, Last(frames));
  }

  /**
   * CursorIteratorPre: stops at a node before its children.
   * `visitAll` stands for the second template argument the build driver
   * passes (see README): with it, every node is a stop; without it, only
   * value-bearing positions are, as CursorIteratorPre is written.
   */
  class PreIter {
    const t: Tree
    const rev: bool
    const visitAll: bool
    var path: Path
    var stack: seq<int>

    /** The stack has one frame per level from the root down to the cursor,
        and each frame below the top records the child the cursor went to. */
    ghost predicate Valid()
      reads this
    {
      && ValidTree(t)
      && path in t.nodes
      && PreFrames(t, stack, path)
      && Aligned(t, rev, stack, path)
    }

    /** The `finished()` the callers use: the frame stack is empty, which is
        exactly when no stop is left. */
    predicate Finished()
      reads this
      ensures Valid() ==> (Finished() <==> Stops() == [])
    {
      stack == []
    }

    predicate AtStop()
      reads this
    {
      visitAll || AtValue(t, path)
    }

    ghost function Pending(): seq<Path>
      reads this
      requires Valid()
    {
      PendingPre(t, rev, visitAll, stack, path)
    }

    /** The current stop (unless finished) followed by all later ones. */
    ghost function Stops(): seq<Path>
      reads this
      requires Valid()
    {
      if stack == [] then [] else [path] + Pending()
    }

    ghost function Work(): nat
      reads this
      requires Valid()
    {
      WorkPre(t, rev, stack, path)
    }

    constructor (t: Tree, rev: bool, visitAll: bool)
      requires ValidTree(t)
      ensures Valid() && this.t == t && this.rev == rev && this.visitAll == visitAll
      ensures Stops() == Enum(t, PreOrder, rev, visitAll, [])
      ensures !Finished() ==> AtStop()
    {
      this.t, this.rev, this.visitAll := t, rev, visitAll;
      path, stack := [], [];
      new;
      Reset();
    }

    /** reset(): back to the root with a single root frame; the root is the
        first stop if it carries a value. */
    method Reset()
      requires Valid()
      modifies this
      ensures Valid()
      ensures Stops() == Enum(t, PreOrder, rev, visitAll, [])
      ensures !Finished() ==> AtStop()
    {
      var cursorAt := |stack|;
      stack := [];
      while cursorAt > 1
        invariant ValidTree(t) && path in t.nodes && cursorAt >= 0
        invariant cursorAt == 0 ==> path == []
        invariant cursorAt > 0 ==> |path| == cursorAt - 1
      {
        path := GoParent(path);
        cursorAt := cursorAt - 1;
      }
      stack := [NoChild];
      assert Pending() == Span(t, PreOrder, rev, visitAll, [], 0, t.radix);
      if !AtStop() {
        Next();
      }
    }

    /** next(): advance to the next stop, or empty the stack if none is left. */
    method Next()
      requires Valid()
      modifies this
      ensures Valid()
      ensures old(stack) == [] ==> stack == [] && path == old(path)
      ensures old(Pending()) == [] ==> stack == []
      ensures old(Pending()) != [] ==> stack != [] && old(Pending()) == [path] + Pending()
      ensures old(stack) != [] ==> old(Stops()) == [old(path)] + Stops()
      ensures stack != [] ==> AtStop() && Last(stack) == NoChild
    {
      ghost var before := Pending();
      var atStop := false;
      while stack != [] && !atStop
        invariant Valid()
        invariant old(stack) == [] ==> stack == [] && path == old(path)
        invariant !atStop ==> Pending() == before
        invariant atStop ==> stack != [] && before == [path] + Pending()
                             && AtStop() && Last(stack) == NoChild
        decreases Work()
      {
        var entered := Step();
        atStop := entered && AtStop();
      }
    }

    /** One pass of the loop in next(): scan the top frame for the next
        present child and enter it, or pop the frame when there is none. */
    method Step() returns (entered: bool)
      requires Valid() && stack != []
      modifies this
      ensures Valid()
      ensures Work() < old(Work())
      ensures !entered ==> Pending() == old(Pending())
      ensures entered ==> stack != [] && Last(stack) == NoChild
                          && old(Pending()) == Self(t, visitAll, path) + Pending()
    {
      var lastChildDone := stack[|stack| - 1];
      var c := lastChildDone + 1;
      while c < t.radix && !CanGoChildNode(t, path, ChildAt(t, rev, c))
        invariant lastChildDone + 1 <= c <= t.radix
        invariant forall k :: lastChildDone + 1 <= k < c ==> !CanGoChildNode(t, path, ChildAt(t, rev, k))
      {
        c := c + 1;
      }
      if c == t.radix {
        Ascend();
        entered := false;
      } else {
        Enter(c);
        entered := true;
      }
    }

    /** The top frame has no child left: pop it and go to the parent. */
    method Ascend()
      requires Valid() && stack != []
      requires forall k :: Last(stack) + 1 <= k < t.radix ==> !CanGoChildNode(t, path, ChildAt(t, rev, k))
      modifies this
      ensures Valid()
      ensures stack == DropLast(old(stack)) && path == GoParent(old(path))
      ensures Work() < old(Work())
      ensures Pending() == old(Pending())
    {
      PrePop(t, rev, visitAll, stack, path);
      AlignedAscend(t, rev, stack, path);
      path := GoParent(path);
      stack := stack[..|stack| - 1];
    }

    /** Record c as the top frame's last child done, go to that child and
        open a fresh frame for it. */
    method Enter(c: nat)
      requires Valid() && stack != []
      requires Last(stack) < c < t.radix
      requires forall k :: Last(stack) + 1 <= k < c ==> !CanGoChildNode(t, path, ChildAt(t, rev, k))
      requires CanGoChildNode(t, path, ChildAt(t, rev, c))
      modifies this
      ensures Valid()
      ensures stack == DropLast(old(stack)) + [c, NoChild] && path == old(path) + [ChildAt(t, rev, c)]
      ensures Work() < old(Work())
      ensures old(Pending()) == Self(t, visitAll, path) + Pending()
    {
      ghost var frames, at := stack, path;
      PreDescend(t, rev, visitAll, frames, at, c);
      AlignedEnter(t, rev, frames, at, c, NoChild);
      PreDescendWork(t, rev, frames, at, c);
      stack := DropLast(stack) + [c, NoChild];
      path := path + [ChildAt(t, rev, c)];
    }
  }

  // =====================================================================
  // Post-order
  // =====================================================================

  /** A post-order frame may also hold the radix itself: the node's children
      are all done and the node has been visited. */
  ghost predicate PostFrames(t: Tree, frames: seq<int>, path: Path) {
    && (|frames| == |path| + 1 || (frames == [] && path == []))
    && (forall i :: 0 <= i < |frames| ==> NoChild <= frames[i] <= t.radix)
  }

  /** What one post-order frame at p still has to emit. */
  ghost function FrameRestPost(t: Tree, rev: bool, p: Path, l: int): seq<Path>
    requires NoChild <= l <= t.radix
  {
    if l == t.radix then []
    else Span(t, PostOrder, rev, false, p, l + 1, t.radix) + Self(t, false, p)
  }

  ghost function PendingPost(t: Tree, rev: bool, frames: seq<int>, path: Path): seq<Path>
    requires PostFrames(t, frames, path)
    decreases |frames|
  {
    if frames == [] then []
    else
      FrameRestPost(t, rev, path, Last(frames))
      + (if path == [] then [] else PendingPost(t, rev, DropLast(frames), DropLast(path)))
  }

  ghost function WorkPost(t: Tree, rev: bool, frames: seq<int>, path: Path): nat
    requires PostFrames(t, frames, path)
    decreases |frames|
  {
    if frames == [] then 0
    else
      (if Last(frames) == t.radix then 1 else 3 * Unentered(t, rev, path, Last(frames)) + 2)
      + (if path == [] then 0 else WorkPost(t, rev, DropLast(frames), DropLast(path)))
  }

  lemma PostDescendFrames(t: Tree, rev: bool, frames: seq<int>, path: Path, c: nat)
    requires PostFrames(t, frames, path) && frames != []
    requires Last(frames) < c < t.radix
    ensures PostFrames(t, DropLast(frames) + [c, NoChild], path + [ChildAt(t, rev, c)])
    ensures DropLast(DropLast(frames) + [c, NoChild]) == DropLast(frames) + [c]
    ensures Last(DropLast(frames) + [c, NoChild]) == NoChild
    ensures DropLast(path + [ChildAt(t, rev, c)]) == path
    ensures DropLast(DropLast(frames) + [c]) == DropLast(frames) && Last(DropLast(frames) + [c]) == c
    ensures PostFrames(t, DropLast(frames) + [c], path)
  {
  }

  /** A post-order descent into the first present child c: what is left is
      unchanged, the child's own frame now holding its part of it. */
  lemma PostDescend(t: Tree, rev: bool, frames: seq<int>, path: Path, c: nat)
    requires PostFrames(t, frames, path) && frames != []
    requires Last(frames) < c < t.radix
    requires forall k :: Last(frames) + 1 <= k < c ==> !CanGoChildNode(t, path, ChildAt(t, rev, k))
    requires CanGoChildNode(t, path, ChildAt(t, rev, c))
    ensures PostFrames(t, DropLast(frames) + [c, NoChild], path + [ChildAt(t, rev, c)])
    ensures PendingPost(t, rev, frames, path)
         == PendingPost(t, rev, DropLast(frames) + [c, NoChild], path + [ChildAt(t, rev, c)])
  {
    var child := path + [ChildAt(t, rev, c)];
    var mid := DropLast(frames) + [c];
    assert mid + [NoChild] == DropLast(frames) + [c, NoChild];
    assert PostFrames(t, mid, path) by { PostReplaceTop(t, rev, frames, path, c); }
    assert PostFrames(t, mid + [NoChild], child) by { PostPush(t, rev, mid, path, ChildAt(t, rev, c), NoChild); }
    var here, below := FrameRestPost(t, rev, path, c), FrameRestPost(t, rev, child, NoChild);
    var rest := PostRest(t, rev, frames, path);
    calc {
      PendingPost(t, rev, frames, path);
      { PostReplaceTop(t, rev, frames, path, c); }
      FrameRestPost(t, rev, path, Last(frames)) + rest;
      { PostDescendFrame(t, rev, path, Last(frames), c); }
      (below + here) + rest;
      below + (here + rest);
      { PostReplaceTop(t, rev, frames, path, c); }
      below + PendingPost(t, rev, mid, path);
      { PostPush(t, rev, mid, path, ChildAt(t, rev, c), NoChild); }
      PendingPost(t, rev, mid + [NoChild], child);
    }
  }

  /** What the frames below the top one still have to emit. */
  ghost function PostRest(t: Tree, rev: bool, frames: seq<int>, path: Path): seq<Path>
    requires PostFrames(t, frames, path) && frames != []
  {
    if path == [] then [] else PendingPost(t, rev, DropLast(frames), DropLast(path))
  }

  /** Replacing the top frame changes only that frame's share. */
  lemma PostReplaceTop(t: Tree, rev: bool, frames: seq<int>, path: Path, l: int)
    requires PostFrames(t, frames, path) && frames != [] && NoChild <= l <= t.radix
    ensures PostFrames(t, DropLast(frames) + [l], path)
    ensures PendingPost(t, rev, frames, path)
         == FrameRestPost(t, rev, path, Last(frames)) + PostRest(t, rev, frames, path)
    ensures PendingPost(t, rev, DropLast(frames) + [l], path)
         == FrameRestPost(t, rev, path, l) + PostRest(t, rev, frames, path)
  {
    var frames' := DropLast(frames) + [l];
    assert DropLast(frames') == DropLast(frames) && Last(frames') == l;
  }

  /** Opening a frame for a child puts that frame's share in front. */
  lemma PostPush(t: Tree, rev: bool, frames: seq<int>, path: Path, x: nat, l: int)
    requires PostFrames(t, frames, path) && frames != [] && NoChild <= l <= t.radix
    ensures PostFrames(t, frames + [l], path + [x])
    ensures PendingPost(t, rev, frames + [l], path + [x])
         == FrameRestPost(t, rev, path + [x], l) + PendingPost(t, rev, frames, path)
  {
    assert DropLast(frames + [l]) == frames && Last(frames + [l]) == l;
    assert DropLast(path + [x]) == path;
  }

  /** The frame-level step of a post-order descent. */
  lemma PostDescendFrame(t: Tree, rev: bool, p: Path, l: int, c: nat)
    requires NoChild <= l < c < t.radix
    requires forall k :: l + 1 <= k < c ==> !CanGoChildNode(t, p, ChildAt(t, rev, k))
    requires CanGoChildNode(t, p, ChildAt(t, rev, c))
    ensures FrameRestPost(t, rev, p, l)
         == FrameRestPost(t, rev, p + [ChildAt(t, rev, c)], NoChild) + FrameRestPost(t, rev, p, c)
  {
    var child := p + [ChildAt(t, rev, c)];
    SpanFirst(t, PostOrder, rev, false, p, l + 1, c, t.radix);
    assert Enum(t, PostOrder, rev, false, child)
        == Span(t, PostOrder, rev, false, child, 0, t.radix) + Self(t, false, child);
  }

  lemma PostDescendWork(t: Tree, rev: bool, frames: seq<int>, path: Path, c: nat)
    requires PostFrames(t, frames, path) && frames != []
    requires Last(frames) < c < t.radix
    requires forall k :: Last(frames) + 1 <= k < c ==> !CanGoChildNode(t, path, ChildAt(t, rev, k))
    requires CanGoChildNode(t, path, ChildAt(t, rev, c))
    ensures PostFrames(t, DropLast(frames) + [c, NoChild], path + [ChildAt(t, rev, c)])
    ensures WorkPost(t, rev, DropLast(frames) + [c, NoChild], path + [ChildAt(t, rev, c)])
          < WorkPost(t, rev, frames, path)
  {
    var l, child := Last(frames), path + [ChildAt(t, rev, c)];
    var mid, frames' := DropLast(frames) + [c], DropLast(frames) + [c, NoChild];
    PostDescendFrames(t, rev, frames, path, c);
    var rest := if path == [] then 0 else WorkPost(t, rev, DropLast(frames), DropLast(path));
    assert WorkPost(t, rev, frames', child)
        == 3 * Unentered(t, rev, child, NoChild) + 2 + WorkPost(t, rev, mid, path);
    assert WorkPost(t, rev, mid, path) == 3 * Unentered(t, rev, path, c) + 2 + rest;
    assert WorkPost(t, rev, frames, path) == 3 * Unentered(t, rev, path, l) + 2 + rest;
    UnenteredDescend(t, rev, path, l, c);
  }

  /** No child is left: the node itself is the next stop if it has a value,
      and its frame is marked done. */
  lemma PostMark(t: Tree, rev: bool, frames: seq<int>, path: Path)
    requires PostFrames(t, frames, path) && frames != []
    requires Last(frames) < t.radix
    requires forall k :: Last(frames) + 1 <= k < t.radix ==> !CanGoChildNode(t, path, ChildAt(t, rev, k))
    ensures PostFrames(t, DropLast(frames) + [t.radix], path)
    ensures PendingPost(t, rev, frames, path)
         == Self(t, false, path) + PendingPost(t, rev, DropLast(frames) + [t.radix], path)
    ensures WorkPost(t, rev, DropLast(frames) + [t.radix], path) < WorkPost(t, rev, frames, path)
  {
    var frames' := DropLast(frames) + [t.radix];
    assert PostFrames(t, frames', path) by { PostReplaceTop(t, rev, frames, path, t.radix); }
    var rest := PostRest(t, rev, frames, path);
    calc {
      PendingPost(t, rev, frames, path);
      { PostReplaceTop(t, rev, frames, path, t.radix); }
      FrameRestPost(t, rev, path, Last(frames)) + rest;
      { SpanNone(t, PostOrder, rev, false, path, Last(frames) + 1, t.radix); }
      Self(t, false, path) + rest;
      { PostReplaceTop(t, rev, frames, path, t.radix);
        assert FrameRestPost(t, rev, path, t.radix) + rest == rest; }
      Self(t, false, path) + PendingPost(t, rev, frames', path);
    }
    assert WorkPost(t, rev, frames', path) < WorkPost(t, rev, frames, path) by {
      assert DropLast(frames') == DropLast(frames) && Last(frames') == t.radix;
    }
  }

  /** A frame that is marked done is popped without emitting anything. */
  lemma PostPop(t: Tree, rev: bool, frames: seq<int>, path: Path)
    requires PostFrames(t, frames, path) && frames != []
    requires Last(frames) == t.radix
    ensures PostFrames(t, DropLast(frames), GoParent(path))
    ensures PendingPost(t, rev, frames, path) == PendingPost(t, rev, DropLast(frames), GoParent(path))
    ensures WorkPost(t, rev, DropLast(frames), GoParent(path)) < WorkPost(t, rev, frames, path)
  {
  }

  /** CursorIteratorPost: stops at a value-bearing node after its children. */
  class PostIter {
    const t: Tree
    const rev: bool
    var path: Path
    var stack: seq<int>

    ghost predicate Valid()
      reads this
    {
      && ValidTree(t)
      && path in t.nodes
      && PostFrames(t, stack, path)
      && Aligned(t, rev, stack, path)
    }

    predicate Finished()
      reads this
      ensures Valid() ==> (Finished() <==> Stops() == [])
    {
      stack == []
    }

    ghost function Pending(): seq<Path>
      reads this
      requires Valid()
    {
      PendingPost(t, rev, stack, path)
    }

    ghost function Stops(): seq<Path>
      reads this
      requires Valid()
    {
      if stack == [] then [] else [path] + Pending()
    }

    ghost function Work(): nat
      reads this
      requires Valid()
    {
      WorkPost(t, rev, stack, path)
    }

    constructor (t: Tree, rev: bool)
      requires ValidTree(t)
      ensures Valid() && this.t == t && this.rev == rev
      ensures Stops() == Enum(t, PostOrder, rev, false, [])
      ensures !Finished() ==> AtValue(t, path)
    {
      this.t, this.rev := t, rev;
      path, stack := [], [];
      new;
      Reset();
    }

    /** reset(): back to the root with a single root frame, then search for
        the first stop. */
    method Reset()
      requires Valid()
      modifies this
      ensures Valid()
      ensures Stops() == Enum(t, PostOrder, rev, false, [])
      ensures !Finished() ==> AtValue(t, path)
    {
      var cursorAt := |stack|;
      stack := [];
      while cursorAt > 1
        invariant ValidTree(t) && path in t.nodes && cursorAt >= 0
        invariant cursorAt == 0 ==> path == []
        invariant cursorAt > 0 ==> |path| == cursorAt - 1
      {
        path := GoParent(path);
        cursorAt := cursorAt - 1;
      }
      stack := [NoChild];
      assert Pending() == Span(t, PostOrder, rev, false, [], 0, t.radix) + Self(t, false, []);
      Next();
    }

    /** next(): advance to the next stop, or empty the stack if none is left. */
    method Next()
      requires Valid()
      modifies this
      ensures Valid()
      ensures old(stack) == [] ==> stack == [] && path == old(path)
      ensures old(Pending()) == [] ==> stack == []
      ensures old(Pending()) != [] ==> stack != [] && old(Pending()) == [path] + Pending()
      ensures old(stack) != [] ==> old(Stops()) == [old(path)] + Stops()
      ensures stack != [] ==> AtValue(t, path) && Last(stack) == t.radix
    {
      ghost var before := Pending();
      var atStop := false;
      while stack != [] && !atStop
        invariant Valid()
        invariant old(stack) == [] ==> stack == [] && path == old(path)
        invariant !atStop ==> Pending() == before
        invariant atStop ==> stack != [] && before == [path] + Pending()
                             && AtValue(t, path) && Last(stack) == t.radix
        decreases Work()
      {
        var marked := Step();
        atStop := marked && AtValue(t, path);
      }
    }

    /** One pass of the loop in next(): pop a finished frame, enter the next
        present child, or mark the node visited when no child is left. */
    method Step() returns (marked: bool)
      requires Valid() && stack != []
      modifies this
      ensures Valid()
      ensures Work() < old(Work())
      ensures !marked ==> Pending() == old(Pending())
      ensures marked ==> stack != [] && Last(stack) == t.radix
                         && old(Pending()) == Self(t, false, path) + Pending()
    {
      var lastChildDone := stack[|stack| - 1];
      if lastChildDone == t.radix {
        Ascend();
        marked := false;
      } else {
        var c := lastChildDone + 1;
        while c < t.radix && !CanGoChildNode(t, path, ChildAt(t, rev, c))
          invariant lastChildDone + 1 <= c <= t.radix
          invariant forall k :: lastChildDone + 1 <= k < c ==> !CanGoChildNode(t, path, ChildAt(t, rev, k))
        {
          c := c + 1;
        }
        if c == t.radix {
          Mark();
          marked := true;
        } else {
          Enter(c);
          marked := false;
        }
      }
    }

    /** The top frame is done: pop it and go to the parent. */
    method Ascend()
      requires Valid() && stack != [] && Last(stack) == t.radix
      modifies this
      ensures Valid()
      ensures stack == DropLast(old(stack)) && path == GoParent(old(path))
      ensures Work() < old(Work())
      ensures Pending() == old(Pending())
    {
      PostPop(t, rev, stack, path);
      AlignedAscend(t, rev, stack, path);
      path := GoParent(path);
      stack := stack[..|stack| - 1];
    }

    /** No child is left: mark the top frame done. */
    method Mark()
      requires Valid() && stack != [] && Last(stack) < t.radix
      requires forall k :: Last(stack) + 1 <= k < t.radix ==> !CanGoChildNode(t, path, ChildAt(t, rev, k))
      modifies this
      ensures Valid()
      ensures stack == DropLast(old(stack)) + [t.radix] && path == old(path)
      ensures Work() < old(Work())
      ensures old(Pending()) == Self(t, false, path) + Pending()
    {
      PostMark(t, rev, stack, path);
      AlignedReplaceTop(t, rev, stack, path, t.radix);
      stack := stack[|stack| - 1 := t.radix];
      assert stack == DropLast(old(stack)) + [t.radix];
    }

    /** Go to child c and open a fresh frame for it. */
    method Enter(c: nat)
      requires Valid() && stack != []
      requires Last(stack) < c < t.radix
      requires forall k :: Last(stack) + 1 <= k < c ==> !CanGoChildNode(t, path, ChildAt(t, rev, k))
      requires CanGoChildNode(t, path, ChildAt(t, rev, c))
      modifies this
      ensures Valid()
      ensures stack == DropLast(old(stack)) + [c, NoChild] && path == old(path) + [ChildAt(t, rev, c)]
      ensures Work() < old(Work())
      ensures Pending() == old(Pending())
    {
      ghost var frames, at := stack, path;
      PostDescend(t, rev, frames, at, c);
      AlignedEnter(t, rev, frames, at, c, NoChild);
      PostDescendWork(t, rev, frames, at, c);
      stack := DropLast(stack) + [c, NoChild];
      path := path + [ChildAt(t, rev, c)];
    }
  }

  // =====================================================================
  // In-order
  // =====================================================================

  /** An in-order frame: the scan index of the last child done, and whether
      the lower half of the children (and the node itself) is done. */
  datatype IterPos = IterPos(lastChildDone: int, finishedMidPoint: bool)

  /** The frame a node starts with: no child done, lower half not finished. */
  const Unstarted: IterPos := IterPos(NoChild, false)

  /** The scan index where the upper half of the children begins. */
  function MidPoint(t: Tree): nat {
    t.radix / 2
  }

  /** A frame's scan index stays below the radix, and below the midpoint
      while the lower half is unfinished. */
  ghost predicate PosOk(t: Tree, pos: IterPos) {
    && NoChild <= pos.lastChildDone < t.radix
    && (!pos.finishedMidPoint ==> pos.lastChildDone < MidPoint(t))
  }

  ghost predicate InFrames(t: Tree, frames: seq<IterPos>, path: Path) {
    && (|frames| == |path| + 1 || (frames == [] && path == []))
    && (forall i :: 0 <= i < |frames| ==> PosOk(t, frames[i]))
  }

  /** What one in-order frame at p still has to emit. */
  ghost function FrameRestIn(t: Tree, rev: bool, p: Path, pos: IterPos): seq<Path>
    requires PosOk(t, pos)
  {
    if pos.finishedMidPoint then Span(t, InOrder, rev, false, p, pos.lastChildDone + 1, t.radix)
    else
      Span(t, InOrder, rev, false, p, pos.lastChildDone + 1, MidPoint(t)) + Self(t, false, p)
      + Span(t, InOrder, rev, false, p, MidPoint(t), t.radix)
  }

  ghost function PendingIn(t: Tree, rev: bool, frames: seq<IterPos>, path: Path): seq<Path>
    requires InFrames(t, frames, path)
    decreases |frames|
  {
    if frames == [] then []
    else
      FrameRestIn(t, rev, path, Last(frames))
      + (if path == [] then [] else PendingIn(t, rev, DropLast(frames), DropLast(path)))
  }

  ghost function WorkIn(t: Tree, rev: bool, frames: seq<IterPos>, path: Path): nat
    requires InFrames(t, frames, path)
    decreases |frames|
  {
    if frames == [] then 0
    else
      FrameWorkIn(t, rev, path, Last(frames))
      + (if path == [] then 0 else WorkIn(t, rev, DropLast(frames), DropLast(path)))
  }

  ghost function FrameWorkIn(t: Tree, rev: bool, p: Path, pos: IterPos): nat
    requires PosOk(t, pos)
  {
    3 * Unentered(t, rev, p, pos.lastChildDone) + (if pos.finishedMidPoint then 1 else 2)
  }

  /** The frame-level step of an in-order descent into the first present
      child c, which lies in the upper half only once the lower is done. */
  lemma InDescendFrame(t: Tree, rev: bool, p: Path, pos: IterPos, c: nat)
    requires PosOk(t, pos) && pos.lastChildDone < c < t.radix
    requires pos.finishedMidPoint || c < MidPoint(t)
    requires forall k :: pos.lastChildDone + 1 <= k < c ==> !CanGoChildNode(t, p, ChildAt(t, rev, k))
    requires CanGoChildNode(t, p, ChildAt(t, rev, c))
    ensures PosOk(t, pos.(lastChildDone := c))
    ensures FrameRestIn(t, rev, p, pos)
         == FrameRestIn(t, rev, p + [ChildAt(t, rev, c)], Unstarted)
            + FrameRestIn(t, rev, p, pos.(lastChildDone := c))
  {
    var child := p + [ChildAt(t, rev, c)];
    var M := MidPoint(t);
    var self := Self(t, false, p);
    assert Enum(t, InOrder, rev, false, child)
        == FrameRestIn(t, rev, child, Unstarted);
    if pos.finishedMidPoint {
      SpanFirst(t, InOrder, rev, false, p, pos.lastChildDone + 1, c, t.radix);
    } else {
      SpanFirst(t, InOrder, rev, false, p, pos.lastChildDone + 1, c, M);
      var upper := Span(t, InOrder, rev, false, p, M, t.radix);
      var tail := Span(t, InOrder, rev, false, p, c + 1, M);
      assert FrameRestIn(t, rev, p, pos)
          == Enum(t, InOrder, rev, false, child) + tail + self + upper;
    }
  }

  /** An in-order descent: what is left is unchanged. */
  lemma InDescend(t: Tree, rev: bool, frames: seq<IterPos>, path: Path, c: nat)
    requires InFrames(t, frames, path) && frames != []
    requires Last(frames).lastChildDone < c < t.radix
    requires Last(frames).finishedMidPoint || c < MidPoint(t)
    requires forall k :: Last(frames).lastChildDone + 1 <= k < c ==> !CanGoChildNode(t, path, ChildAt(t, rev, k))
    requires CanGoChildNode(t, path, ChildAt(t, rev, c))
    ensures InFrames(t, DropLast(frames) + [Last(frames).(lastChildDone := c), Unstarted], path + [ChildAt(t, rev, c)])
    ensures PendingIn(t, rev, frames, path)
         == PendingIn(t, rev, DropLast(frames) + [Last(frames).(lastChildDone := c), Unstarted], path + [ChildAt(t, rev, c)])
  {
    var pos, child := Last(frames), path + [ChildAt(t, rev, c)];
    var pos' := pos.(lastChildDone := c);
    var mid := DropLast(frames) + [pos'];
    assert mid + [Unstarted] == DropLast(frames) + [pos', Unstarted];
    assert PosOk(t, pos') by { InDescendFrame(t, rev, path, pos, c); }
    assert InFrames(t, mid, path) by { InReplaceTop(t, rev, frames, path, pos'); }
    assert InFrames(t, mid + [Unstarted], child) by { InPush(t, rev, mid, path, ChildAt(t, rev, c), Unstarted); }
    var here, below := FrameRestIn(t, rev, path, pos'), FrameRestIn(t, rev, child, Unstarted);
    var rest := InRest(t, rev, frames, path);
    calc {
      PendingIn(t, rev, frames, path);
      { InReplaceTop(t, rev, frames, path, pos'); }
      FrameRestIn(t, rev, path, pos) + rest;
      { InDescendFrame(t, rev, path, pos, c); }
      (below + here) + rest;
      below + (here + rest);
      { InReplaceTop(t, rev, frames, path, pos'); }
      below + PendingIn(t, rev, mid, path);
      { InPush(t, rev, mid, path, ChildAt(t, rev, c), Unstarted); }
      PendingIn(t, rev, mid + [Unstarted], child);
    }
  }

  lemma InDescendWork(t: Tree, rev: bool, frames: seq<IterPos>, path: Path, c: nat)
    requires InFrames(t, frames, path) && frames != []
    requires Last(frames).lastChildDone < c < t.radix
    requires Last(frames).finishedMidPoint || c < MidPoint(t)
    requires forall k :: Last(frames).lastChildDone + 1 <= k < c ==> !CanGoChildNode(t, path, ChildAt(t, rev, k))
    requires CanGoChildNode(t, path, ChildAt(t, rev, c))
    ensures InFrames(t, DropLast(frames) + [Last(frames).(lastChildDone := c), Unstarted], path + [ChildAt(t, rev, c)])
    ensures WorkIn(t, rev, DropLast(frames) + [Last(frames).(lastChildDone := c), Unstarted], path + [ChildAt(t, rev, c)])
          < WorkIn(t, rev, frames, path)
  {
    var pos, child := Last(frames), path + [ChildAt(t, rev, c)];
    var pos' := pos.(lastChildDone := c);
    var mid := DropLast(frames) + [pos'];
    assert mid + [Unstarted] == DropLast(frames) + [pos', Unstarted];
    UnenteredDescend(t, rev, path, pos.lastChildDone, c);
    assert InFrames(t, mid, path) && WorkIn(t, rev, mid, path) - WorkIn(t, rev, frames, path)
        == FrameWorkIn(t, rev, path, pos') - FrameWorkIn(t, rev, path, pos) by {
      InReplaceTop(t, rev, frames, path, pos');
    }
    assert InFrames(t, mid + [Unstarted], child) && WorkIn(t, rev, mid + [Unstarted], child)
        == FrameWorkIn(t, rev, child, Unstarted) + WorkIn(t, rev, mid, path) by {
      InPush(t, rev, mid, path, ChildAt(t, rev, c), Unstarted);
    }
  }

  /** Opening a frame for a child of the cursor puts that frame's share in
      front of what is left. */
  lemma InPush(t: Tree, rev: bool, frames: seq<IterPos>, path: Path, x: nat, pos: IterPos)
    requires InFrames(t, frames, path) && frames != [] && PosOk(t, pos)
    ensures InFrames(t, frames + [pos], path + [x])
    ensures PendingIn(t, rev, frames + [pos], path + [x])
         == FrameRestIn(t, rev, path + [x], pos) + PendingIn(t, rev, frames, path)
    ensures WorkIn(t, rev, frames + [pos], path + [x])
         == FrameWorkIn(t, rev, path + [x], pos) + WorkIn(t, rev, frames, path)
  {
    assert DropLast(frames + [pos]) == frames && Last(frames + [pos]) == pos;
    assert DropLast(path + [x]) == path;
  }

  /** The lower half is done: the node itself is the next stop if it has a
      value, and its frame moves on to the upper half. */
  lemma InMid(t: Tree, rev: bool, frames: seq<IterPos>, path: Path)
    requires InFrames(t, frames, path) && frames != []
    requires !Last(frames).finishedMidPoint
    requires forall k :: Last(frames).lastChildDone + 1 <= k < MidPoint(t) ==> !CanGoChildNode(t, path, ChildAt(t, rev, k))
    ensures InFrames(t, DropLast(frames) + [Last(frames).(finishedMidPoint := true)], path)
    ensures PendingIn(t, rev, frames, path)
         == Self(t, false, path) + PendingIn(t, rev, DropLast(frames) + [Last(frames).(finishedMidPoint := true)], path)
    ensures WorkIn(t, rev, DropLast(frames) + [Last(frames).(finishedMidPoint := true)], path)
          < WorkIn(t, rev, frames, path)
  {
    var pos := Last(frames);
    var pos' := pos.(finishedMidPoint := true);
    InMidFrame(t, rev, path, pos);
    InReplaceTop(t, rev, frames, path, pos');
    ShiftOut(PendingIn(t, rev, frames, path), FrameRestIn(t, rev, path, pos), InRest(t, rev, frames, path),
             Self(t, false, path), FrameRestIn(t, rev, path, pos'), PendingIn(t, rev, DropLast(frames) + [pos'], path));
  }

  /** The sequence algebra of emitting a frame's head. */
  lemma ShiftOut<T>(all: seq<T>, top: seq<T>, rest: seq<T>, head: seq<T>, top': seq<T>, all': seq<T>)
    requires all == top + rest && top == head + top' && all' == top' + rest
    ensures all == head + all'
  {
  }

  /** Replacing the top frame changes only that frame's share of what is left
      and of the work. */
  lemma InReplaceTop(t: Tree, rev: bool, frames: seq<IterPos>, path: Path, pos': IterPos)
    requires InFrames(t, frames, path) && frames != [] && PosOk(t, pos')
    ensures InFrames(t, DropLast(frames) + [pos'], path)
    ensures PendingIn(t, rev, frames, path)
         == FrameRestIn(t, rev, path, Last(frames)) + InRest(t, rev, frames, path)
    ensures PendingIn(t, rev, DropLast(frames) + [pos'], path)
         == FrameRestIn(t, rev, path, pos') + InRest(t, rev, frames, path)
    ensures WorkIn(t, rev, DropLast(frames) + [pos'], path) - WorkIn(t, rev, frames, path)
         == FrameWorkIn(t, rev, path, pos') - FrameWorkIn(t, rev, path, Last(frames))
  {
    var frames' := DropLast(frames) + [pos'];
    assert DropLast(frames') == DropLast(frames) && Last(frames') == pos';
  }

  /** What the frames below the top one still have to emit. */
  ghost function InRest(t: Tree, rev: bool, frames: seq<IterPos>, path: Path): seq<Path>
    requires InFrames(t, frames, path) && frames != []
  {
    if path == [] then [] else PendingIn(t, rev, DropLast(frames), DropLast(path))
  }

  /** The frame-level step of finishing the lower half. */
  lemma InMidFrame(t: Tree, rev: bool, p: Path, pos: IterPos)
    requires PosOk(t, pos) && !pos.finishedMidPoint
    requires forall k :: pos.lastChildDone + 1 <= k < MidPoint(t) ==> !CanGoChildNode(t, p, ChildAt(t, rev, k))
    ensures PosOk(t, pos.(finishedMidPoint := true))
    ensures FrameRestIn(t, rev, p, pos) == Self(t, false, p) + FrameRestIn(t, rev, p, pos.(finishedMidPoint := true))
  {
    var upper := Span(t, InOrder, rev, false, p, MidPoint(t), t.radix);
    InLowerDone(t, rev, p, pos);
    InUpperOnly(t, rev, p, pos);
    assert FrameRestIn(t, rev, p, pos) == Self(t, false, p) + upper;
  }

  /** With the lower half empty, an unfinished frame emits p, then the
      upper half. */
  lemma InLowerDone(t: Tree, rev: bool, p: Path, pos: IterPos)
    requires PosOk(t, pos) && !pos.finishedMidPoint
    requires forall k :: pos.lastChildDone + 1 <= k < MidPoint(t) ==> !CanGoChildNode(t, p, ChildAt(t, rev, k))
    ensures FrameRestIn(t, rev, p, pos) == Self(t, false, p) + Span(t, InOrder, rev, false, p, MidPoint(t), t.radix)
  {
    var lower := Span(t, InOrder, rev, false, p, pos.lastChildDone + 1, MidPoint(t));
    SpanNone(t, InOrder, rev, false, p, pos.lastChildDone + 1, MidPoint(t));
    assert lower == [];
  }

  /** With the lower half empty, a finished frame emits the upper half. */
  lemma InUpperOnly(t: Tree, rev: bool, p: Path, pos: IterPos)
    requires PosOk(t, pos) && !pos.finishedMidPoint
    requires forall k :: pos.lastChildDone + 1 <= k < MidPoint(t) ==> !CanGoChildNode(t, p, ChildAt(t, rev, k))
    ensures PosOk(t, pos.(finishedMidPoint := true))
    ensures FrameRestIn(t, rev, p, pos.(finishedMidPoint := true)) == Span(t, InOrder, rev, false, p, MidPoint(t), t.radix)
  {
    var lo, M := pos.lastChildDone + 1, MidPoint(t);
    SpanNone(t, InOrder, rev, false, p, lo, M);
    SpanSplit(t, InOrder, rev, false, p, lo, M, t.radix);
    assert Span(t, InOrder, rev, false, p, lo, M) == [];
  }

  /** A frame whose upper half is also done is popped without emitting. */
  lemma InPop(t: Tree, rev: bool, frames: seq<IterPos>, path: Path)
    requires InFrames(t, frames, path) && frames != []
    requires Last(frames).finishedMidPoint
    requires forall k :: Last(frames).lastChildDone + 1 <= k < t.radix ==> !CanGoChildNode(t, path, ChildAt(t, rev, k))
    ensures InFrames(t, DropLast(frames), GoParent(path))
    ensures PendingIn(t, rev, frames, path) == PendingIn(t, rev, DropLast(frames), GoParent(path))
    ensures WorkIn(t, rev, DropLast(frames), GoParent(path)) < WorkIn(t, rev, frames, path)
  {
    SpanNone(t, InOrder, rev, false, path, Last(frames).lastChildDone + 1, t.radix);
    UnenteredNone(t, rev, path, Last(frames).lastChildDone);
    assert FrameRestIn(t, rev, path, Last(frames)) == [];
    assert FrameWorkIn(t, rev, path, Last(frames)) == 1;
    if path == [] {
      assert DropLast(frames) == [];
    } else {
      var rest := PendingIn(t, rev, DropLast(frames), DropLast(path));
      assert PendingIn(t, rev, frames, path) == [] + rest == rest;
    }
  }

  /** CursorIteratorIn: stops at a value-bearing node between the lower and
      the upper half of its children; only for an even radix. */
  class InIter {
    const t: Tree
    const rev: bool
    var path: Path
    var stack: seq<IterPos>

    ghost predicate Valid()
      reads this
    {
      && ValidTree(t)
      && t.radix % 2 == 0
      && path in t.nodes
      && InFrames(t, stack, path)
      && AlignedIn(t, rev, stack, path)
    }

    predicate Finished()
      reads this
      ensures Valid() ==> (Finished() <==> Stops() == [])
    {
      stack == []
    }

    ghost function Pending(): seq<Path>
      reads this
      requires Valid()
    {
      PendingIn(t, rev, stack, path)
    }

    ghost function Stops(): seq<Path>
      reads this
      requires Valid()
    {
      if stack == [] then [] else [path] + Pending()
    }

    ghost function Work(): nat
      reads this
      requires Valid()
    {
      WorkIn(t, rev, stack, path)
    }

    constructor (t: Tree, rev: bool)
      requires ValidTree(t) && t.radix % 2 == 0
      ensures Valid() && this.t == t && this.rev == rev
      ensures Stops() == Enum(t, InOrder, rev, false, [])
      ensures !Finished() ==> AtValue(t, path)
    {
      this.t, this.rev := t, rev;
      path, stack := [], [];
      new;
      Reset();
    }

    /** reset(): back to the root with a single root frame, then search for
        the first stop. */
    method Reset()
      requires Valid()
      modifies this
      ensures Valid()
      ensures Stops() == Enum(t, InOrder, rev, false, [])
      ensures !Finished() ==> AtValue(t, path)
    {
      var cursorAt := |stack|;
      stack := [];
      while cursorAt > 1
        invariant ValidTree(t) && path in t.nodes && cursorAt >= 0
        invariant cursorAt == 0 ==> path == []
        invariant cursorAt > 0 ==> |path| == cursorAt - 1
      {
        path := GoParent(path);
        cursorAt := cursorAt - 1;
      }
      stack := [Unstarted];
      assert Pending() == FrameRestIn(t, rev, [], Unstarted);
      Next();
    }

    /** next(): advance to the next stop, or empty the stack if none is left. */
    method Next()
      requires Valid()
      modifies this
      ensures Valid()
      ensures old(stack) == [] ==> stack == [] && path == old(path)
      ensures old(Pending()) == [] ==> stack == []
      ensures old(Pending()) != [] ==> stack != [] && old(Pending()) == [path] + Pending()
      ensures old(stack) != [] ==> old(Stops()) == [old(path)] + Stops()
      ensures stack != [] ==> AtValue(t, path) && Last(stack).finishedMidPoint
    {
      ghost var before := Pending();
      var atStop := false;
      while stack != [] && !atStop
        invariant Valid()
        invariant old(stack) == [] ==> stack == [] && path == old(path)
        invariant !atStop ==> Pending() == before
        invariant atStop ==> stack != [] && before == [path] + Pending()
                             && AtValue(t, path) && Last(stack).finishedMidPoint
        decreases Work()
      {
        var marked := Step();
        atStop := marked && AtValue(t, path);
      }
    }

    /** One pass of the loop in next(): scan for the next present child;
        in the upper half enter it or pop the frame, in the lower half
        enter it or, once the scan reaches the midpoint, visit the node. */
    method Step() returns (marked: bool)
      requires Valid() && stack != []
      modifies this
      ensures Valid()
      ensures Work() < old(Work())
      ensures !marked ==> Pending() == old(Pending())
      ensures marked ==> stack != [] && Last(stack).finishedMidPoint
                         && old(Pending()) == Self(t, false, path) + Pending()
    {
      var pos := stack[|stack| - 1];
      var c := pos.lastChildDone + 1;
      while c < t.radix && !CanGoChildNode(t, path, ChildAt(t, rev, c))
        invariant pos.lastChildDone + 1 <= c <= t.radix
        invariant forall k :: pos.lastChildDone + 1 <= k < c ==> !CanGoChildNode(t, path, ChildAt(t, rev, k))
      {
        c := c + 1;
      }
      if pos.finishedMidPoint {
        if c == t.radix {
          Ascend();
        } else {
          Enter(c);
        }
        marked := false;
      } else {
        if (pos.lastChildDone < MidPoint(t) || pos.lastChildDone == NoChild) && c >= MidPoint(t) {
          FinishMid();
          marked := true;
        } else {
          Enter(c);
          marked := false;
        }
      }
    }

    /** Both halves are done: pop the frame and go to the parent. */
    method Ascend()
      requires Valid() && stack != [] && Last(stack).finishedMidPoint
      requires forall k :: Last(stack).lastChildDone + 1 <= k < t.radix ==> !CanGoChildNode(t, path, ChildAt(t, rev, k))
      modifies this
      ensures Valid()
      ensures stack == DropLast(old(stack)) && path == GoParent(old(path))
      ensures Work() < old(Work())
      ensures Pending() == old(Pending())
    {
      InPop(t, rev, stack, path);
      AlignedInAscend(t, rev, stack, path);
      path := GoParent(path);
      stack := stack[..|stack| - 1];
    }

    /** The lower half is done: mark the frame, making the node the stop. */
    method FinishMid()
      requires Valid() && stack != [] && !Last(stack).finishedMidPoint
      requires forall k :: Last(stack).lastChildDone + 1 <= k < MidPoint(t) ==> !CanGoChildNode(t, path, ChildAt(t, rev, k))
      modifies this
      ensures Valid()
      ensures stack == DropLast(old(stack)) + [Last(old(stack)).(finishedMidPoint := true)] && path == old(path)
      ensures Work() < old(Work())
      ensures old(Pending()) == Self(t, false, path) + Pending()
    {
      InMid(t, rev, stack, path);
      AlignedInReplaceTop(t, rev, stack, path, Last(stack).(finishedMidPoint := true));
      stack := DropLast(stack) + [Last(stack).(finishedMidPoint := true)];
    }

    /** Record c as the frame's last child done, go to that child and open a
        fresh frame for it. */
    method Enter(c: nat)
      requires Valid() && stack != []
      requires Last(stack).lastChildDone < c < t.radix
      requires Last(stack).finishedMidPoint || c < MidPoint(t)
      requires forall k :: Last(stack).lastChildDone + 1 <= k < c ==> !CanGoChildNode(t, path, ChildAt(t, rev, k))
      requires CanGoChildNode(t, path, ChildAt(t, rev, c))
      modifies this
      ensures Valid()
      ensures stack == DropLast(old(stack)) + [Last(old(stack)).(lastChildDone := c), Unstarted]
      ensures path == old(path) + [ChildAt(t, rev, c)]
      ensures Work() < old(Work())
      ensures Pending() == old(Pending())
    {
      InDescend(t, rev, stack, path, c);
      AlignedInEnter(t, rev, stack, path, c, Unstarted);
      InDescendWork(t, rev, stack, path, c);
      stack := DropLast(stack) + [Last(stack).(lastChildDone := c), Unstarted];
      path := path + [ChildAt(t, rev, c)];
    }
  }
}
