# Radix tree cursor iterators and the unsigned-integer WORM tree driver

This project models two cooperating parts of a radix tree library, and proves
properties of each.

**Cursor iterators.** `CursorIteratorPre`, `CursorIteratorPost` and
`CursorIteratorIn` walk a tree through a cursor. Each keeps an explicit stack
with one "last child done" frame per level from the root to the cursor. The
in-order iterator's frames also carry a "finished mid point" flag. `next()`
moves the cursor with `goChild`/`goParent` until it reaches the next position
carrying a value.

- **Tree.** `CursorTree.dfy` models the tree abstractly:
  - a radix;
  - the set of positions, as paths of child indices, closed under prefixes;
  - a map from some positions to their values.
- **Cursor as a path.** The cursor is its current path. `canGoChildNode(i)`
  holds when `path + [i]` is a position. `goParent` at the root does nothing.
- **Reference traversal.** `Enum` is a plain recursive pre-, post- and
  in-order traversal, and the iterators are proved against it.
- **Iterators as classes.** `CursorIterator.dfy` makes each iterator a class
  with a `path` field and a `stack` field. `reset()` and `next()` are methods
  with the source's loops. Their contracts say that:
  - the iterator's remaining stops are exactly the rest of the reference
    traversal;
  - every stop is at a value;
  - the stack has one frame per level below the root plus one;
  - `next()` terminates, because the unentered (frame, child) work strictly
    decreases;
  - once the stack is empty, `next()` changes nothing.
- **ReverseChildren.** The flag maps scan index `c` to child
  `radix - 1 - c`. Reversing the scan reverses the traversal: pre-order
  becomes post-order, post-order becomes pre-order, and in-order stays
  in-order for an even radix.

**UInt WORM driver.** `BinaryWORMTreeUInt.dfy` models the unsigned-integer
binary WORM tree driver.

- **`findMinimumWORMTreeUIntParameters`** makes a dry-run build over a
  pre-order walk of every node. It tracks the largest value and derives the
  value size in bytes from that value's bit length, with a floor of one
  byte. It takes the offset size from the builder's statistics.
- **`buildBinaryWORMTreeUIntBuffer`** makes the real build. It stops with an
  error at the first value that narrowing to the builder's value type would
  change.
- **Dispatch chains.** `BuildBinaryWORMTreeUInt` and `MakeBinaryWORMTreeUInt`
  are template chains indexed by (endianness, offset size, value size). They
  have a restart specialisation at value size 0 and a terminal specialisation
  at (0, 8). In the model they are one recursive function, `Chain`, which is
  proved to accept exactly the sizes 1..8.
- **Parameters.** `BinaryWORMTreeUIntParams` is the `Params` datatype
  (include/RadixTree/BinaryWORMTreeUInt.h:56-60).
- **Builder.** `BinaryWORMTreeBuilder.h` is not part of this model. The
  builder is a `Builder` class that records every call it receives. Its
  outcomes come from a `Backend` value made of uninterpreted functions:
  - whether `start` and `finish` succeed;
  - `minBytesForOffset`;
  - the buffer layout;
  - the width in bits of its value type.

## Model

| member | source | states |
|---|---|---|
| CursorTree.GoParent | include/RadixTree/CursorIterator.h:282-283 | going to the parent drops the last child index; at the root the path stays empty |
| CursorTree.ChildAt | include/RadixTree/CursorIterator.h:276-277 | the child visited at any scan index below the radix is itself below the radix (what the reversed mapping means for a traversal is EnumMirror) |
| CursorTree.EnumWithin | include/RadixTree/CursorIterator.h:270-392 | every stop of a traversal of the subtree at p lies in that subtree, is a node, and carries a value unless every node is a stop |
| CursorTree.EnumComplete | include/RadixTree/CursorIterator.h:270-392 | every value-bearing node of the subtree at p (every node, when all nodes are stops) is a stop of its traversal |
| CursorTree.EnumMembers | include/RadixTree/CursorIterator.h:270-392 | whole-tree traversals stop exactly at the value-bearing nodes (or at the nodes, when all are stops), in both directions |
| CursorTree.EnumDistinct | include/RadixTree/CursorIterator.h:270-392 | no traversal stops at the same position twice |
| CursorTree.EnumMirror | include/RadixTree/CursorIterator.h:276-277 | reversing the child scan reverses the traversal: pre-order becomes post-order, post-order becomes pre-order, in-order stays in-order (for an even radix) |
| CursorTree.PreMirror | include/RadixTree/CursorIterator.h:276-287 | the reverse of a pre-order traversal is the post-order traversal with the child scan reversed |
| CursorTree.PostMirror | include/RadixTree/CursorIterator.h:322-333 | the reverse of a post-order traversal is the pre-order traversal with the child scan reversed |
| CursorTree.InMirror | include/RadixTree/CursorIterator.h:364-387 | for an even radix, the reverse of an in-order traversal is the in-order traversal with the child scan reversed |
| CursorIterator.PreDescend | include/RadixTree/CursorIterator.h:284-288 | entering the first present child c records c in the top frame and pushes a fresh frame; the stops still to come are unchanged, except that the child itself is handed out first when it is a stop |
| CursorIterator.PrePop | include/RadixTree/CursorIterator.h:279-283 | when no child is left, popping the frame and going to the parent loses no stop and decreases the remaining work |
| CursorIterator.PostMark | include/RadixTree/CursorIterator.h:326-329 | once every child from lastChildDone+1 up to the radix is exhausted, marking the frame with the radix makes the node itself (when it has a value) the next stop, and decreases the remaining work |
| CursorIterator.PostPop | include/RadixTree/CursorIterator.h:317-320 | a frame marked with the radix is popped without emitting any stop |
| CursorIterator.InDescend | include/RadixTree/CursorIterator.h:373-388 | entering child c records it in the frame and pushes an unstarted frame without losing or adding any stop; in the lower half only children below the midpoint are entered |
| CursorIterator.InMid | include/RadixTree/CursorIterator.h:379-383 | once no child below the midpoint is left, setting finishedMidPoint makes the node itself (when it has a value) the next stop, before any child at or above the midpoint |
| CursorIterator.InPop | include/RadixTree/CursorIterator.h:368-372 | a frame whose mid point is finished and whose children are all done is popped without emitting any stop |
| CursorIterator.PreIter.constructor | include/RadixTree/CursorIterator.h:254-268 | a new iterator's stops are exactly the pre-order traversal of the tree, and its current position is a stop unless it is finished |
| CursorIterator.PreIter.Reset | include/RadixTree/CursorIterator.h:254-268 | from any state, reset climbs back to the root and leaves a single root frame. It stays at the root when that is a stop, so the stops are again the whole pre-order traversal |
| CursorIterator.PreIter.Finished | include/RadixTree/BinaryWORMTreeUInt.h:238 | the finished() the drivers call holds exactly when no stop is left |
| CursorIterator.PreIter.Next | include/RadixTree/CursorIterator.h:270-292 | next hands out exactly the next stop of the remaining sequence, or empties the stack when none is left; on an empty stack it changes nothing; a non-empty stack ends at a stop with a fresh top frame |
| CursorIterator.PreIter.Step | include/RadixTree/CursorIterator.h:273-290 | one pass of the loop scans for the first present child after lastChildDone, then enters it or pops the frame, with strictly less remaining work |
| CursorIterator.PreIter.Ascend | include/RadixTree/CursorIterator.h:279-283 | goParent together with a pop: the stack and the path each lose their last entry and no stop is lost |
| CursorIterator.PreIter.Enter | include/RadixTree/CursorIterator.h:284-288 | goChild together with a push: the top frame records c, a NoChild frame is pushed and the path gains the mapped child |
| CursorIterator.PostIter.constructor | include/RadixTree/CursorIterator.h:296-310 | a new iterator's stops are exactly the post-order traversal of the tree, and its current position carries a value unless it is finished |
| CursorIterator.PostIter.Reset | include/RadixTree/CursorIterator.h:296-310 | reset climbs to the root, leaves a single root frame and searches for the first stop; the stops are again the whole post-order traversal |
| CursorIterator.PostIter.Finished | include/RadixTree/BinaryWORMTreeUInt.h:238 | finished() holds exactly when no post-order stop is left |
| CursorIterator.PostIter.Next | include/RadixTree/CursorIterator.h:312-338 | next hands out exactly the next post-order stop, or empties the stack; an empty stack stays as it is; a stop is at a value with its frame marked with the radix |
| CursorIterator.PostIter.Step | include/RadixTree/CursorIterator.h:315-335 | one pass pops a finished frame, enters the next present child, or marks the node visited, with strictly less remaining work |
| CursorIterator.PostIter.Ascend | include/RadixTree/CursorIterator.h:317-320 | a frame marked with the radix is popped together with goParent |
| CursorIterator.PostIter.Mark | include/RadixTree/CursorIterator.h:326-329 | with no child left, the top frame becomes the radix and the node itself is the next stop if it has a value |
| CursorIterator.PostIter.Enter | include/RadixTree/CursorIterator.h:330-334 | goChild together with a push of NoChild, recording c as the last child done |
| CursorIterator.InIter.constructor | include/RadixTree/CursorIterator.h:342-356 | for an even radix, a new iterator's stops are exactly the in-order traversal of the tree |
| CursorIterator.InIter.Reset | include/RadixTree/CursorIterator.h:342-356 | reset climbs to the root, leaves a single unstarted root frame and searches for the first stop; the stops are again the whole in-order traversal |
| CursorIterator.InIter.Finished | include/RadixTree/BinaryWORMTreeUInt.h:277 | finished() holds exactly when no in-order stop is left |
| CursorIterator.InIter.Next | include/RadixTree/CursorIterator.h:358-392 | next hands out exactly the next in-order stop, or empties the stack; an empty stack stays as it is; a stop is at a value whose frame has finished its mid point |
| CursorIterator.InIter.Step | include/RadixTree/CursorIterator.h:361-389 | one pass scans from lastChildDone+1, then (after the mid point) enters or pops, or (before it) enters a lower child or finishes the mid point, with strictly less remaining work |
| CursorIterator.InIter.Ascend | include/RadixTree/CursorIterator.h:368-372 | a frame whose mid point is finished and whose children are all done is popped together with goParent |
| CursorIterator.InIter.FinishMid | include/RadixTree/CursorIterator.h:379-383 | the top frame's finishedMidPoint becomes true and the node is the next stop if it has a value |
| CursorIterator.InIter.Enter | include/RadixTree/CursorIterator.h:373-388 | goChild together with a push of an unstarted frame, recording c as the last child done |
| BinaryWORMTreeUInt.Builder.constructor | include/RadixTree/BinaryWORMTreeUInt.h:232 | a new builder session for a given unit has received no call yet |
| BinaryWORMTreeUInt.Builder.Start | include/RadixTree/BinaryWORMTreeUInt.h:234 | start(dryRun) is recorded, and its success is the backend's answer for the calls made so far |
| BinaryWORMTreeUInt.Builder.AddNode | include/RadixTree/BinaryWORMTreeUInt.h:247 | addNode is recorded with its path, value flag, value and child flags |
| BinaryWORMTreeUInt.Builder.Finish | include/RadixTree/BinaryWORMTreeUInt.h:250 | finish is recorded, and its success is the backend's answer for the calls made so far |
| BinaryWORMTreeUInt.Builder.MinBytesForOffset | include/RadixTree/BinaryWORMTreeUInt.h:258-259 | the offset statistic is the backend's answer for the calls the builder received (uninterpreted) |
| BinaryWORMTreeUInt.Builder.ExtractBuffer | include/RadixTree/BinaryWORMTreeUInt.h:298 | the extracted buffer is the backend's layout of the calls the builder received |
| BinaryWORMTreeUInt.BitLengthUpper | include/RadixTree/BinaryWORMTreeUInt.h:254 | a value is below 2 to the power of its shift count |
| BinaryWORMTreeUInt.BitLengthLower | include/RadixTree/BinaryWORMTreeUInt.h:254 | a positive value is at least 2 to the power of its shift count minus one |
| BinaryWORMTreeUInt.BitLengthAtMost | include/RadixTree/BinaryWORMTreeUInt.h:254 | a value below 2^m takes at most m shifts to reach zero |
| BinaryWORMTreeUInt.ValueBytesRequired | include/RadixTree/BinaryWORMTreeUInt.h:253-256 | the shifting loop and the rounding compute max(1, ceil(bitlength(maxVal)/8)) |
| BinaryWORMTreeUInt.ValueSizeRounding | include/RadixTree/BinaryWORMTreeUInt.h:255-256 | the size in bytes holds the bit length, one byte fewer does not, up to 8 bits take one byte and up to 64 bits at most eight |
| BinaryWORMTreeUInt.ValueSizeHolds | include/RadixTree/BinaryWORMTreeUInt.h:253-257 | the maximum is below 2^(8 * valueSize) |
| BinaryWORMTreeUInt.ValueSizeMinimal | include/RadixTree/BinaryWORMTreeUInt.h:253-257 | when the value size exceeds one byte, the maximum is at least 2^(8 * (valueSize - 1)) |
| BinaryWORMTreeUInt.ValueSizeOneByte | include/RadixTree/BinaryWORMTreeUInt.h:253-256 | the value size is one byte exactly when the maximum is below 256, in particular for an all-zero or valueless tree |
| BinaryWORMTreeUInt.ValueSizeRange | include/RadixTree/BinaryWORMTreeUInt.h:253-257 | a 64-bit maximum gives a value size from 1 to 8 |
| BinaryWORMTreeUInt.Narrow | include/RadixTree/BinaryWORMTreeUInt.h:284 | the static_cast to an unsigned type of a given width lands below 2^width |
| BinaryWORMTreeUInt.NarrowKeeps | include/RadixTree/BinaryWORMTreeUInt.h:284-285 | casting to an unsigned type of a given width and back keeps a value exactly when it is below 2^width |
| BinaryWORMTreeUInt.WalkingAt | include/RadixTree/BinaryWORMTreeUInt.h:238 | the driver's iterator is finished exactly when every visit has been made, and otherwise its cursor is at the next visit |
| BinaryWORMTreeUInt.Advance | include/RadixTree/BinaryWORMTreeUInt.h:248 | treeIter++ moves the driver's iterator on by exactly one visit |
| BinaryWORMTreeUInt.AddNodesAreVisits | include/RadixTree/BinaryWORMTreeUInt.h:239-247 | there is one addNode per visited position, in visit order. The value flag is atValue(), the value is absent exactly when there is no value, and the child flags are canGoChildNode(0) and canGoChildNode(1) |
| BinaryWORMTreeUInt.VisitStep | include/RadixTree/BinaryWORMTreeUInt.h:245-247 | one more visit appends its own addNode and raises the running maximum by that position alone |
| BinaryWORMTreeUInt.MaxValueIsMaximum | include/RadixTree/BinaryWORMTreeUInt.h:237-246 | the running maximum bounds every value at a visited value-bearing position and is either 0 or one of those values; valueless positions play no part |
| BinaryWORMTreeUInt.FirstOverflow | include/RadixTree/BinaryWORMTreeUInt.h:283-287 | the index returned is a visit whose value the narrowing changes, with no such visit before it; no index means no visit overflows |
| BinaryWORMTreeUInt.NoOverflowBelowBound | include/RadixTree/BinaryWORMTreeUInt.h:283-287 | when the running maximum is below 2^bits no visit overflows |
| BinaryWORMTreeUInt.FindMinimumWORMTreeUIntParameters | include/RadixTree/BinaryWORMTreeUInt.h:222-261 | the dry run fails when start fails (after that one call) or when finish fails. Otherwise it returns the backend's offset statistic, the value size of the largest value and big-endian. The calls are start(true), one addNode per node in pre-order, then finish |
| BinaryWORMTreeUInt.DryRunVisit | include/RadixTree/BinaryWORMTreeUInt.h:237-249 | the dry-run loop visits every node, sending its addNode calls in order, and returns the running maximum |
| BinaryWORMTreeUInt.TreeMaxValue | include/RadixTree/BinaryWORMTreeUInt.h:237-246 | the dry run's maximum is at least every value of the tree and is 0 or one of them |
| BinaryWORMTreeUInt.TreeValueSize | include/RadixTree/BinaryWORMTreeUInt.h:253-257 | the value size of the tree's maximum is 1..8 bytes. Every value of the tree fits it, and above one byte some value needs the top byte |
| BinaryWORMTreeUInt.MinimumParamsValueSize | include/RadixTree/BinaryWORMTreeUInt.h:253-257 | successful dry-run parameters have a value size from 1 to 8 bytes that holds every value of the tree and is the smallest that does, and are big-endian |
| BinaryWORMTreeUInt.BuildBinaryWORMTreeUIntBuffer | include/RadixTree/BinaryWORMTreeUInt.h:264-299 | the real build fails when start(false) fails, or at the first value changed by narrowing, with no addNode for it or any later node. It ignores finish's result, fails when the following start(true) fails, and otherwise returns the layout of exactly that call sequence |
| BinaryWORMTreeUInt.BuildVisit | include/RadixTree/BinaryWORMTreeUInt.h:277-292 | the build loop reports an overflow exactly when some visit overflows, and has then sent addNode for the visits before the first one only, otherwise for all |
| BinaryWORMTreeUInt.FirstOverflowAt | include/RadixTree/BinaryWORMTreeUInt.h:285-287 | an overflowing visit with no overflowing visit before it is the first overflow |
| BinaryWORMTreeUInt.FirstOverflowNone | include/RadixTree/BinaryWORMTreeUInt.h:285-287 | when no visit overflows there is no first overflow |
| BinaryWORMTreeUInt.OverflowIffValueTooWide | include/RadixTree/BinaryWORMTreeUInt.h:283-287 | once started, the real build fails on narrowing exactly when some value of the tree is at least 2^(width of the builder's value type) |
| BinaryWORMTreeUInt.MinimumParamsNeverOverflow | include/RadixTree/BinaryWORMTreeUInt.h:283-287 | a build unit whose value type holds the dry run's value size never fails on narrowing |
| BinaryWORMTreeUInt.Chain | include/RadixTree/BinaryWORMTreeUInt.h:301-355 | a unit of the chain only ever returns the unit with the request's sizes and its own byte order, or the terminal error with the request's sizes |
| BinaryWORMTreeUInt.ChainReaches | include/RadixTree/BinaryWORMTreeUInt.h:377-430 | entered at (o, v), the chain succeeds exactly for requests with a matching byte order and sizes from 1 to 8 that come at or after (o, v). The order is value size 8 down to 1 within each offset size, offset sizes from 8 down to 1 |
| BinaryWORMTreeUInt.Dispatch | include/RadixTree/BinaryWORMTreeUInt.h:368-372 | dispatch succeeds exactly for offset and value sizes from 1 to 8, giving the unit of those sizes and the requested byte order. Any other request ends at the terminal unit with its sizes in the error |
| BinaryWORMTreeUInt.MakeWORMTreeUIntGeneric | include/RadixTree/BinaryWORMTreeUInt.h:432-441 | wrapping a buffer succeeds exactly for sizes from 1 to 8, and then keeps the caller's parameters and the buffer in the unit of those sizes; any other request fails with its sizes in the error |
| BinaryWORMTreeUInt.BuildWORMTreeUIntGeneric | include/RadixTree/BinaryWORMTreeUInt.h:357-374 | building dispatches on the parameters, then builds the buffer in the selected unit; a dispatch or build error is passed on. A built tree keeps the caller's parameters in the unit of their sizes and byte order, and the parameters are rejected exactly when a size is outside 1..8 |
| BinaryWORMTreeUInt.BuildThenMake | include/RadixTree/BinaryWORMTreeUInt.h:317-323 | a built tree keeps the caller's parameters, and wrapping its buffer with the same parameters gives back the same tree; this holds by the definitions, because building and wrapping share one dispatch, and says nothing about the buffer layout |
| BinaryWORMTreeUInt.MinimumParamsDispatch | include/RadixTree/BinaryWORMTreeUInt.h:257-259 | dry-run parameters whose offset statistic is 1..8 bytes are accepted by the dispatch, which picks the big-endian unit of those sizes |
| BinaryWORMTreeUInt.FindThenBuild | include/RadixTree/BinaryWORMTreeUInt.h:357-374 | building with the dry run's parameters (offset statistic 1..8 bytes, a value type holding the value size) picks the big-endian unit of those sizes and never fails on the parameters or on narrowing; only a failed start or restart of the session remains |

## Left out

- **Builder.** `BinaryWORMTreeBuilder.h`, `BinaryWORMTree.h` and the node
  read/write types are not part of this model. The builder is kept abstract:
  - whether start and finish succeed, the offset statistic
    (`treeStats().minBytesForOffset()`) and the byte layout are
    uninterpreted functions of the calls it received;
  - the width of `WormValueType` is an uninterpreted function of the unit,
    not assumed to be the unit's value size.
- **Forwarding wrappers.** `BinaryWORMCursorUIntGenericImpl` and
  `BinaryWORMTreeUIntGenericImpl` (include/RadixTree/BinaryWORMTreeUInt.h:108-137,
  155-188) only forward to the types above. A built or wrapped tree is the
  `UIntTree` value holding its parameters, unit and buffer.
- **C++ mechanics.** `unique_ptr` ownership, `std::move` of buffers and the
  error-message strings are left out. Each thrown `runtime_error` is an
  `Error` value. The input buffer of the build is always empty in
  `buildWORMTreeUIntGeneric`, so it is not a parameter.
- **Cursor and iterator surface.** The cursor's own implementation is
  modelled only through its tree. Also not modelled:
  - the definitions of the iterator operators `++`, `->` and `*`; their
    effect is modelled where the drivers use them (`++` is `next()`, in
    `Advance`; `->` reads the cursor's path);
  - `reset(c)`, which only replaces the cursor before `reset()`;
  - the `make_*_iterator` helpers;
  - the `copy()` of cursors.
- **Starting position.** Only a start at the root of the tree is modelled.
  Two differences of a start below the root are not captured:
  - the last pop also calls `goParent()`
    (include/RadixTree/CursorIterator.h:282, 319, 371), so an exhausted
    iterator's cursor sits at the start's parent, and a later `reset()`
    with an empty stack does not climb
    (include/RadixTree/CursorIterator.h:258-264, 300-306, 346-352) and walks
    the parent's subtree instead of the start's;
  - the drivers pass the absolute `getPath()` to `addNode`
    (include/RadixTree/BinaryWORMTreeUInt.h:247, 290), not a path relative
    to the start.
- **NoChild.** `NoChild()` is the largest `size_t`, and `NoChild()+1`
  wraps to 0. Both are modelled with `-1`. The in-order test
  `lastChildDone < MidPoint || lastChildDone == NoChild()` gives the same
  answer for `-1` as for the largest `size_t`.
- **make_preorder_iterator<false,true>.** Both drivers call it
  (include/RadixTree/BinaryWORMTreeUInt.h:233, 273). Its second template
  argument does not exist on `make_preorder_iterator`
  (include/RadixTree/CursorIterator.h:101).
  - The drivers pass `atValue()` as `addNode`'s value flag, so they
    evidently mean to visit every node, including valueless ones.
  - `PreIter` therefore has a `visitAll` flag. With `visitAll` false it is
    `CursorIteratorPre` as written; with it true every node is a stop.
- **Wrap chain template parameter.** The wrap chain's restart and terminal
  specialisations declare a `CursorType` template parameter that cannot be
  deduced (include/RadixTree/BinaryWORMTreeUInt.h:410-412, 425-427). The
  model gives the wrap chain the same matching rule as the build chain, one
  `Chain` function for both.
- **static_asserts.** They become preconditions:
  - unsigned source values of at most 8 bytes are
    `ValuesFit` (every value below 2^64);
  - the even radix of the in-order iterator is `t.radix % 2 == 0`;
  - the chain bound `OFFSETSIZE, VALUESIZE <= 8` is `Chain`'s requires.
