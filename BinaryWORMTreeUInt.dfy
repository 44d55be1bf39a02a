/**
 * Building binary WORM trees of unsigned integers from a cursor.
 *
 * A pre-order walk over every node of the source tree first runs a dry-run
 * build that finds the smallest value width and the offset width, and then
 * a real build, which fails when a value does not survive the narrowing to
 * the builder's value type. Each (endianness, offset size, value size)
 * combination is its own compiled unit, picked by a chain that tries value
 * sizes 8 down to 1 within offset size 8, then within 7, and so on, ending
 * at a terminal unit that always fails; the same chain is used to build a
 * tree and to wrap an existing buffer.
 *
 * The builder's own behaviour (whether start and finish succeed, the offset
 * statistic, the byte layout and the width of its value type) is not part
 * of this model: it is the `Backend` parameter, and a `Builder` only records
 * the calls made to it.
 */
module BinaryWORMTreeUInt {
  import opened CursorTree
  import opened CursorIterator

  datatype Option<T> = None | Some(value: T)

  /** BinaryWORMTreeUIntParams: sizes in bytes and byte order. The default
      value is all zero and big-endian. */
  datatype Params = Params(offsetSize: nat, valueSize: nat, isLittleEndian: bool)

  /** One compiled unit of the dispatch chain, i.e. one instance of the
      templates with fixed endianness, offset size and value size. */
  datatype Unit = Unit(isLittleEndian: bool, offsetSize: nat, valueSize: nat)

  /** A call made to a builder. */
  datatype Event =
    | Start(dryRun: bool)
    | AddNode(path: Path, hasValue: bool, value: Option<nat>, hasLeftChild: bool, hasRightChild: bool)
    | Finish

  /** The errors the drivers raise, one per runtime_error they throw. */
  datatype Error =
    | DryRunStartFailed
    | DryRunFinishFailed
    | BuildStartFailed
    | ValueOverflow
    | BuildFinishFailed
    | InvalidParams(offsetSize: nat, valueSize: nat)

  datatype Result<T> = Ok(value: T) | Err(error: Error)

  /** What the builder does with the calls it receives, given the unit it
      was compiled for and the calls made so far. */
  datatype Backend = Backend(
    startOk: (Unit, seq<Event>) -> bool,
    finishOk: (Unit, seq<Event>) -> bool,
    minBytesForOffset: seq<Event> -> nat,
    layout: (Unit, seq<Event>) -> seq<bv8>,
    valueBits: Unit -> nat)

  /** BinaryWORMTreeUIntGeneric: the parameters it was made with, and the
      unit and buffer of the tree implementation it owns. */
  datatype UIntTree = UIntTree(treeParams: Params, unit: Unit, buffer: seq<bv8>)

  /** The dry run uses an 8-byte offset, 8-byte value, big-endian builder. */
  const DryRunUnit: Unit := Unit(false, 8, 8)

  /** A builder session: it records every call it receives. */
  class Builder {
    const unit: Unit
    const backend: Backend
    var log: seq<Event>

    constructor (unit: Unit, backend: Backend)
      ensures this.unit == unit && this.backend == backend && log == []
    {
      this.unit, this.backend := unit, backend;
      log := [];
    }

    method Start(dryRun: bool) returns (ok: bool)
      modifies this
      ensures log == old(log) + [Event.Start(dryRun)]
      ensures ok == backend.startOk(unit, old(log))
    {
      ok := backend.startOk(unit, log);
      log := log + [Event.Start(dryRun)];
    }

    method AddNode(path: Path, hasValue: bool, value: Option<nat>, hasLeftChild: bool, hasRightChild: bool)
      modifies this
      ensures log == old(log) + [Event.AddNode(path, hasValue, value, hasLeftChild, hasRightChild)]
    {
      log := log + [Event.AddNode(path, hasValue, value, hasLeftChild, hasRightChild)];
    }

    method Finish() returns (ok: bool)
      modifies this
      ensures log == old(log) + [Event.Finish]
      ensures ok == backend.finishOk(unit, old(log))
    {
      ok := backend.finishOk(unit, log);
      log := log + [Event.Finish];
    }

    /** treeStats().minBytesForOffset() */
    function MinBytesForOffset(): nat
      reads this
    {
      backend.minBytesForOffset(log)
    }

    method ExtractBuffer() returns (buffer: seq<bv8>)
      ensures buffer == backend.layout(unit, log)
    {
      buffer := backend.layout(unit, log);
    }
  }

  // ---------------------------------------------------------------------
  // Unsigned widths
  // ---------------------------------------------------------------------

  function Pow2(n: nat): (r: nat)
    ensures r >= 1
  {
    if n == 0 then 1 else 2 * Pow2(n - 1)
  }

  lemma {:induction false} Pow2Monotone(a: nat, b: nat)
    requires a <= b
    ensures Pow2(a) <= Pow2(b)
    decreases b
  {
    if a < b {
      Pow2Monotone(a, b - 1);
    }
  }

  /** The number of right shifts that bring v to zero. */
  function BitLength(v: nat): nat {
    if v == 0 then 0 else 1 + BitLength(v / 2)
  }

  /** v is below 2^n for its bit length n ... */
  lemma {:induction false} BitLengthUpper(v: nat)
    ensures v < Pow2(BitLength(v))
  {
    if v > 0 {
      BitLengthUpper(v / 2);
      assert v <= 2 * (v / 2) + 1;
    }
  }

  /** ... and at least 2^(n-1) when it is positive ... */
  lemma {:induction false} BitLengthLower(v: nat)
    requires v > 0
    ensures Pow2(BitLength(v) - 1) <= v
  {
    if v / 2 > 0 {
      BitLengthLower(v / 2);
      assert Pow2(BitLength(v) - 1) == 2 * Pow2(BitLength(v / 2) - 1);
    }
  }

  /** ... so any bound 2^m on v is at least 2^n. */
  lemma {:induction false} BitLengthAtMost(v: nat, m: nat)
    requires v < Pow2(m)
    ensures BitLength(v) <= m
  {
    if v > 0 {
      assert m > 0;
      assert v / 2 < Pow2(m - 1);
      BitLengthAtMost(v / 2, m - 1);
    }
  }

  /** The value size the dry run reports: whole bytes for the bit length of
      the largest value, but never less than one byte. */
  function ValueSizeFor(maxVal: nat): nat {
    var bytes := (BitLength(maxVal) + 7) / 8;
    if bytes == 0 then 1 else bytes
  }

  /** The byte rounding: s bytes hold n bits, and s - 1 bytes do not. */
  lemma ValueSizeRounding(maxVal: nat)
    ensures BitLength(maxVal) <= 8 * ValueSizeFor(maxVal)
    ensures ValueSizeFor(maxVal) > 1 ==> 8 * (ValueSizeFor(maxVal) - 1) < BitLength(maxVal)
    ensures BitLength(maxVal) <= 8 ==> ValueSizeFor(maxVal) == 1
    ensures BitLength(maxVal) <= 64 ==> ValueSizeFor(maxVal) <= 8
  {
  }

  /** The value size holds the maximum ... */
  lemma ValueSizeHolds(maxVal: nat)
    ensures maxVal < Pow2(8 * ValueSizeFor(maxVal))
  {
    var n, bits := BitLength(maxVal), 8 * ValueSizeFor(maxVal);
    ValueSizeRounding(maxVal);
    BitLengthUpper(maxVal);
    Pow2Monotone(n, bits);
  }

  /** ... and is the smallest size that does ... */
  lemma ValueSizeMinimal(maxVal: nat)
    ensures ValueSizeFor(maxVal) > 1 ==> Pow2(8 * (ValueSizeFor(maxVal) - 1)) <= maxVal
  {
    var n, bits := BitLength(maxVal), 8 * (ValueSizeFor(maxVal) - 1);
    if ValueSizeFor(maxVal) > 1 {
      ValueSizeRounding(maxVal);
      BitLengthLower(maxVal);
      Pow2Monotone(bits, n - 1);
    }
  }

  /** ... it is one byte exactly when the maximum is below 256, in
      particular for a tree without values or with only zeros ... */
  lemma ValueSizeOneByte(maxVal: nat)
    ensures ValueSizeFor(maxVal) == 1 <==> maxVal < 256
  {
    var n := BitLength(maxVal);
    ValueSizeRounding(maxVal);
    assert Pow2(8) == 256;
    if maxVal < 256 {
      BitLengthAtMost(maxVal, 8);
    }
    if ValueSizeFor(maxVal) == 1 {
      BitLengthUpper(maxVal);
      Pow2Monotone(n, 8);
    }
  }

  /** ... and a 64-bit maximum needs one to eight bytes. */
  lemma ValueSizeRange(maxVal: nat)
    requires maxVal < Pow2(64)
    ensures 1 <= ValueSizeFor(maxVal) <= 8
  {
    ValueSizeRounding(maxVal);
    BitLengthAtMost(maxVal, 64);
  }

  /** The bit count and byte rounding at the end of the dry run. */
  method ValueBytesRequired(maxVal: nat) returns (valueBytesRequired: nat)
    ensures valueBytesRequired == ValueSizeFor(maxVal)
  {
    var valueBitsRequired := 0;
    var m := maxVal;
    while m > 0
      invariant valueBitsRequired + BitLength(m) == BitLength(maxVal)
    {
      valueBitsRequired := valueBitsRequired + 1;
      m := m / 2;
    }
    valueBytesRequired := (valueBitsRequired + 7) / 8;
    if valueBytesRequired == 0 {
      valueBytesRequired := 1;
    }
  }

  /** static_cast to an unsigned type of the given width. */
  function Narrow(v: nat, bits: nat): (r: nat)
    ensures r < Pow2(bits)
  {
    v % Pow2(bits)
  }

  /** Narrowing keeps a value exactly when it is below 2^bits. */
  lemma NarrowKeeps(v: nat, bits: nat)
    ensures Narrow(v, bits) == v <==> v < Pow2(bits)
  {
    ModKeeps(v, Pow2(bits));
  }

  lemma ModKeeps(v: nat, m: nat)
    requires m > 0
    ensures v % m == v <==> v < m
  {
    if v >= m {
      assert v % m < m;
    }
  }

  // ---------------------------------------------------------------------
  // What the drivers send to the builder
  // ---------------------------------------------------------------------

  /** Source trees hold unsigned integers of at most 64 bits. */
  predicate ValuesFit(t: Tree) {
    forall p :: p in t.values ==> t.values[p] < Pow2(64)
  }

  /** The positions both drivers visit: every node, in pre-order. */
  ghost function Visits(t: Tree): seq<Path> {
    Enum(t, PreOrder, false, true, [])
  }

  /** The driver's iterator has emitted the first k visits. */
  ghost predicate Walking(it: PreIter, t: Tree, visits: seq<Path>, k: int)
    reads it
  {
    && it.Valid() && it.t == t && !it.rev && it.visitAll
    && 0 <= k <= |visits| && it.Stops() == visits[k..]
  }

  lemma WalkingAt(it: PreIter, t: Tree, visits: seq<Path>, k: int)
    requires Walking(it, t, visits, k)
    ensures it.Finished() <==> k == |visits|
    ensures !it.Finished() ==> it.path == visits[k]
  {
  }

  /** treeIter.next() in the drivers. */
  method Advance(it: PreIter, ghost t: Tree, ghost visits: seq<Path>, ghost k: int)
    requires Walking(it, t, visits, k) && !it.Finished()
    modifies it
    ensures Walking(it, t, visits, k + 1)
  {
    ghost var rest := visits[k + 1..];
    assert visits[k..] == [visits[k]] + rest;
    it.Next();
    assert it.Stops() == ([visits[k]] + rest)[1..] == rest;
  }

  /** The addNode call for the cursor at p. */
  function NodeEvent(t: Tree, p: Path): Event {
    Event.AddNode(p, AtValue(t, p), if AtValue(t, p) then Some(t.values[p]) else None,
                  CanGoChildNode(t, p, 0), CanGoChildNode(t, p, 1))
  }

  function AddNodes(t: Tree, ps: seq<Path>): seq<Event> {
    if ps == [] then [] else AddNodes(t, DropLast(ps)) + [NodeEvent(t, Last(ps))]
  }

  /** One addNode call per visited position, in visit order, with the node's
      own value flag, value and child flags. */
  lemma {:induction false} AddNodesAreVisits(t: Tree, ps: seq<Path>)
    ensures |AddNodes(t, ps)| == |ps|
    ensures forall i :: 0 <= i < |ps| ==> AddNodes(t, ps)[i] == NodeEvent(t, ps[i])
  {
    if ps != [] {
      AddNodesAreVisits(t, DropLast(ps));
    }
  }

  /** Extending the visited prefix by one position. */
  lemma VisitStep(t: Tree, visits: seq<Path>, k: nat, log: seq<Event>)
    requires k < |visits|
    ensures log + AddNodes(t, visits[..k + 1]) == (log + AddNodes(t, visits[..k])) + [NodeEvent(t, visits[k])]
    ensures MaxValue(t, visits[..k + 1]) == RaiseMax(t, MaxValue(t, visits[..k]), visits[k])
  {
    var ps := visits[..k + 1];
    assert ps != [] && DropLast(ps) == visits[..k] && Last(ps) == visits[k];
    assert AddNodes(t, ps) == AddNodes(t, visits[..k]) + [NodeEvent(t, visits[k])];
  }

  /** The running maximum of the dry run, over the positions ps. */
  function MaxValue(t: Tree, ps: seq<Path>): nat {
    if ps == [] then 0 else RaiseMax(t, MaxValue(t, DropLast(ps)), Last(ps))
  }

  /** One step of the running maximum, at position p. */
  function RaiseMax(t: Tree, m: nat, p: Path): nat {
    if AtValue(t, p) && t.values[p] > m then t.values[p] else m
  }

  /** The running maximum is the largest value at a value-bearing position,
      or zero when there is none; valueless positions play no part. */
  lemma {:induction false} MaxValueIsMaximum(t: Tree, ps: seq<Path>)
    ensures forall i :: 0 <= i < |ps| && AtValue(t, ps[i]) ==> t.values[ps[i]] <= MaxValue(t, ps)
    ensures MaxValue(t, ps) == 0
         || exists i :: 0 <= i < |ps| && AtValue(t, ps[i]) && t.values[ps[i]] == MaxValue(t, ps)
  {
    if ps != [] {
      var init := DropLast(ps);
      MaxValueIsMaximum(t, init);
      assert forall i :: 0 <= i < |init| ==> ps[i] == init[i];
      if MaxValue(t, init) != 0 && MaxValue(t, ps) == MaxValue(t, init) {
        var i :| 0 <= i < |init| && AtValue(t, init[i]) && t.values[init[i]] == MaxValue(t, init);
        assert ps[i] == init[i];
      }
    }
  }

  /** A visited position whose value the narrowing changes. */
  predicate Overflows(t: Tree, bits: nat, p: Path) {
    AtValue(t, p) && Narrow(t.values[p], bits) != t.values[p]
  }

  /** The index of the first visited position that overflows, if any. */
  function FirstOverflow(t: Tree, bits: nat, ps: seq<Path>): (r: Option<nat>)
    ensures r.Some? ==> r.value < |ps| && Overflows(t, bits, ps[r.value])
                        && forall i :: 0 <= i < r.value ==> !Overflows(t, bits, ps[i])
    ensures r.None? ==> forall i :: 0 <= i < |ps| ==> !Overflows(t, bits, ps[i])
  {
    if ps == [] then None
    else if Overflows(t, bits, ps[0]) then Some(0)
    else
      match FirstOverflow(t, bits, ps[1..])
      case None => None
      case Some(k) => Some(k + 1)
  }

  /** With values below 2^bits no visited value overflows. */
  lemma NoOverflowBelowBound(t: Tree, bits: nat, ps: seq<Path>)
    requires MaxValue(t, ps) < Pow2(bits)
    ensures FirstOverflow(t, bits, ps) == None
  {
    MaxValueIsMaximum(t, ps);
    forall i | 0 <= i < |ps| && AtValue(t, ps[i])
      ensures Narrow(t.values[ps[i]], bits) == t.values[ps[i]]
    {
      NarrowKeeps(t.values[ps[i]], bits);
    }
  }

  // ---------------------------------------------------------------------
  // The dry run: findMinimumWORMTreeUIntParameters
  // ---------------------------------------------------------------------

  ghost function DryRunLog(t: Tree): seq<Event> {
    [Event.Start(true)] + AddNodes(t, Visits(t))
  }

  /** What the dry run reports, as a function of the tree and the builder. */
  ghost function MinimumParams(t: Tree, backend: Backend): Result<Params> {
    if !backend.startOk(DryRunUnit, []) then Err(DryRunStartFailed)
    else if !backend.finishOk(DryRunUnit, DryRunLog(t)) then Err(DryRunFinishFailed)
    else
      Ok(Params(backend.minBytesForOffset(DryRunLog(t) + [Event.Finish]),
                ValueSizeFor(MaxValue(t, Visits(t))), false))
  }

  method FindMinimumWORMTreeUIntParameters(t: Tree, backend: Backend)
    returns (r: Result<Params>, ghost log: seq<Event>)
    requires ValidTree(t) && ValuesFit(t)
    ensures r == MinimumParams(t, backend)
    ensures log == if r == Err(DryRunStartFailed) then [Event.Start(true)]
                   else DryRunLog(t) + [Event.Finish]
  {
    var dryRunBuilder := new Builder(DryRunUnit, backend);
    var treeIter := new PreIter(t, false, true);
    var started := dryRunBuilder.Start(true);
    if !started {
      return Err(DryRunStartFailed), dryRunBuilder.log;
    }
    var maxVal := DryRunVisit(t, treeIter, dryRunBuilder, Visits(t));
    assert dryRunBuilder.log == DryRunLog(t);
    assert dryRunBuilder.unit == DryRunUnit;
    var finished := dryRunBuilder.Finish();
    assert finished == backend.finishOk(DryRunUnit, DryRunLog(t));
    if !finished {
      return Err(DryRunFinishFailed), dryRunBuilder.log;
    }
    var valueSize := ValueBytesRequired(maxVal);
    var offsetSize := dryRunBuilder.MinBytesForOffset();
    return Ok(Params(offsetSize, valueSize, false)), dryRunBuilder.log;
  }

  /** The visiting loop of the dry run: one addNode per visit, and the
      running maximum of the values. */
  method DryRunVisit(t: Tree, treeIter: PreIter, dryRunBuilder: Builder, ghost visits: seq<Path>)
    returns (maxVal: nat)
    requires Walking(treeIter, t, visits, 0)
    modifies treeIter, dryRunBuilder
    ensures Walking(treeIter, t, visits, |visits|)
    ensures dryRunBuilder.log == old(dryRunBuilder.log) + AddNodes(t, visits)
    ensures maxVal == MaxValue(t, visits)
  {
    ghost var k := 0;
    maxVal := 0;
    while !treeIter.Finished()
      invariant Walking(treeIter, t, visits, k)
      invariant dryRunBuilder.log == old(dryRunBuilder.log) + AddNodes(t, visits[..k])
      invariant maxVal == MaxValue(t, visits[..k])
      decreases |visits| - k
    {
      WalkingAt(treeIter, t, visits, k);
      VisitStep(t, visits, k, old(dryRunBuilder.log));
      var path := treeIter.path;
      var hasLeftChild := CanGoChildNode(t, path, 0);
      var hasRightChild := CanGoChildNode(t, path, 1);
      var value: Option<nat> := None;
      var atValue := AtValue(t, path);
      ghost var maxBefore := maxVal;
      if atValue {
        var v := t.values[path];
        if v > maxVal {
          maxVal := v;
        }
        value := Some(v);
      }
      assert maxVal == RaiseMax(t, maxBefore, path);
      assert Event.AddNode(path, atValue, value, hasLeftChild, hasRightChild) == NodeEvent(t, visits[k]);
      dryRunBuilder.AddNode(path, atValue, value, hasLeftChild, hasRightChild);
      assert maxVal == MaxValue(t, visits[..k + 1]);
      assert dryRunBuilder.log == old(dryRunBuilder.log) + AddNodes(t, visits[..k + 1]);
      Advance(treeIter, t, visits, k);
      k := k + 1;
    }
    WalkingAt(treeIter, t, visits, k);
    assert visits[..k] == visits;
  }

  /** The reported value size is between one and eight bytes, holds every
      value of the tree, and is the smallest such size; the byte order is
      left at its default, big-endian. */
  lemma MinimumParamsValueSize(t: Tree, backend: Backend)
    requires ValidTree(t) && ValuesFit(t) && MinimumParams(t, backend).Ok?
    ensures 1 <= MinimumParams(t, backend).value.valueSize <= 8
    ensures !MinimumParams(t, backend).value.isLittleEndian
    ensures forall p :: p in t.values ==> t.values[p] < Pow2(8 * MinimumParams(t, backend).value.valueSize)
    ensures MinimumParams(t, backend).value.valueSize > 1 ==>
              exists p :: p in t.values && Pow2(8 * (MinimumParams(t, backend).value.valueSize - 1)) <= t.values[p]
  {
    var r := MinimumParams(t, backend);
    assert r.value.valueSize == ValueSizeFor(MaxValue(t, Visits(t))) && !r.value.isLittleEndian;
    TreeValueSize(t);
  }

  /** The value size of the dry run's maximum, stated over the tree. */
  lemma TreeValueSize(t: Tree)
    requires ValidTree(t) && ValuesFit(t)
    ensures 1 <= ValueSizeFor(MaxValue(t, Visits(t))) <= 8
    ensures forall p :: p in t.values ==> t.values[p] < Pow2(8 * ValueSizeFor(MaxValue(t, Visits(t))))
    ensures ValueSizeFor(MaxValue(t, Visits(t))) > 1 ==>
              exists p :: p in t.values && Pow2(8 * (ValueSizeFor(MaxValue(t, Visits(t))) - 1)) <= t.values[p]
  {
    var m := MaxValue(t, Visits(t));
    var s := ValueSizeFor(m);
    TreeMaxValue(t);
    ValueSizeHolds(m);
    ValueSizeMinimal(m);
    assert m < Pow2(64) by {
      if m != 0 {
        var p :| p in t.values && t.values[p] == m;
      }
    }
    ValueSizeRange(m);
    if s > 1 {
      ValueSizeOneByte(m);
      assert m != 0;
    }
  }

  /** The dry run's maximum is the largest value in the tree, or zero for a
      tree without values. */
  lemma TreeMaxValue(t: Tree)
    requires ValidTree(t)
    ensures forall p :: p in t.values ==> t.values[p] <= MaxValue(t, Visits(t))
    ensures MaxValue(t, Visits(t)) == 0 || exists p :: p in t.values && t.values[p] == MaxValue(t, Visits(t))
  {
    var ps := Visits(t);
    MaxValueIsMaximum(t, ps);
    forall p | p in t.values ensures t.values[p] <= MaxValue(t, ps) {
      EnumMembers(t, PreOrder, false, true, p);
      var i :| 0 <= i < |ps| && ps[i] == p;
    }
  }

  // ---------------------------------------------------------------------
  // The real build: buildBinaryWORMTreeUIntBuffer
  // ---------------------------------------------------------------------

  ghost function BuildLog(t: Tree): seq<Event> {
    [Event.Start(false)] + AddNodes(t, Visits(t)) + [Event.Finish]
  }

  /** What the real build with unit u returns. */
  ghost function BuildOutcome(u: Unit, t: Tree, backend: Backend): Result<seq<bv8>> {
    if !backend.startOk(u, []) then Err(BuildStartFailed)
    else if FirstOverflow(t, backend.valueBits(u), Visits(t)).Some? then Err(ValueOverflow)
    else if !backend.startOk(u, BuildLog(t)) then Err(BuildFinishFailed)
    else Ok(backend.layout(u, BuildLog(t) + [Event.Start(true)]))
  }

  /** The calls the real build makes: none after the first overflowing
      position, whose own addNode is not made either. */
  ghost function BuildCalls(u: Unit, t: Tree, backend: Backend): seq<Event> {
    if !backend.startOk(u, []) then [Event.Start(false)]
    else match FirstOverflow(t, backend.valueBits(u), Visits(t))
      case Some(k) => [Event.Start(false)] + AddNodes(t, Visits(t)[..k])
      case None => BuildLog(t) + [Event.Start(true)]
  }

  method BuildBinaryWORMTreeUIntBuffer(u: Unit, t: Tree, backend: Backend)
    returns (r: Result<seq<bv8>>, ghost log: seq<Event>)
    requires ValidTree(t) && ValuesFit(t)
    ensures r == BuildOutcome(u, t, backend)
    ensures log == BuildCalls(u, t, backend)
  {
    var wormBuilder := new Builder(u, backend);
    var treeIter := new PreIter(t, false, true);
    var started := wormBuilder.Start(false);
    if !started {
      return Err(BuildStartFailed), wormBuilder.log;
    }
    var overflowed := BuildVisit(t, treeIter, wormBuilder, backend.valueBits(u), Visits(t));
    if overflowed {
      return Err(ValueOverflow), wormBuilder.log;
    }
    assert wormBuilder.log == [Event.Start(false)] + AddNodes(t, Visits(t));
    var _ := wormBuilder.Finish();
    assert wormBuilder.log == BuildLog(t);
    var restarted := wormBuilder.Start(true);
    assert restarted == backend.startOk(u, BuildLog(t));
    if !restarted {
      return Err(BuildFinishFailed), wormBuilder.log;
    }
    var buffer := wormBuilder.ExtractBuffer();
    return Ok(buffer), wormBuilder.log;
  }

  /** The visiting loop of the real build: one addNode per visit until the
      first value that does not survive narrowing to `bits` bits. */
  method BuildVisit(t: Tree, treeIter: PreIter, wormBuilder: Builder, bits: nat, ghost visits: seq<Path>)
    returns (overflowed: bool)
    requires Walking(treeIter, t, visits, 0)
    modifies treeIter, wormBuilder
    ensures overflowed == FirstOverflow(t, bits, visits).Some?
    ensures overflowed ==> wormBuilder.log == old(wormBuilder.log) + AddNodes(t, visits[..FirstOverflow(t, bits, visits).value])
    ensures !overflowed ==> wormBuilder.log == old(wormBuilder.log) + AddNodes(t, visits)
  {
    ghost var k := 0;
    while !treeIter.Finished()
      invariant Walking(treeIter, t, visits, k)
      invariant wormBuilder.log == old(wormBuilder.log) + AddNodes(t, visits[..k])
      invariant forall i :: 0 <= i < k ==> !Overflows(t, bits, visits[i])
      decreases |visits| - k
    {
      WalkingAt(treeIter, t, visits, k);
      VisitStep(t, visits, k, old(wormBuilder.log));
      var path := treeIter.path;
      var hasLeftChild := CanGoChildNode(t, path, 0);
      var hasRightChild := CanGoChildNode(t, path, 1);
      var wormValue: Option<nat> := None;
      var atValue := AtValue(t, path);
      if atValue {
        var value := t.values[path];
        var narrowed := Narrow(value, bits);
        if narrowed != value {
          FirstOverflowAt(t, bits, visits, k);
          return true;
        }
        wormValue := Some(narrowed);
      }
      assert Event.AddNode(path, atValue, wormValue, hasLeftChild, hasRightChild) == NodeEvent(t, visits[k]);
      wormBuilder.AddNode(path, atValue, wormValue, hasLeftChild, hasRightChild);
      Advance(treeIter, t, visits, k);
      k := k + 1;
    }
    WalkingAt(treeIter, t, visits, k);
    assert visits[..k] == visits;
    FirstOverflowNone(t, bits, visits);
    return false;
  }

  /** The first position that overflows is the one the loop stops at. */
  lemma FirstOverflowAt(t: Tree, bits: nat, ps: seq<Path>, k: nat)
    requires k < |ps| && Overflows(t, bits, ps[k])
    requires forall i :: 0 <= i < k ==> !Overflows(t, bits, ps[i])
    ensures FirstOverflow(t, bits, ps) == Some(k)
  {
  }

  lemma FirstOverflowNone(t: Tree, bits: nat, ps: seq<Path>)
    requires forall i :: 0 <= i < |ps| ==> !Overflows(t, bits, ps[i])
    ensures FirstOverflow(t, bits, ps) == None
  {
  }

  /** The real build fails on narrowing exactly when some value of the tree
      does not fit the builder's value type. */
  lemma OverflowIffValueTooWide(u: Unit, t: Tree, backend: Backend)
    requires ValidTree(t) && backend.startOk(u, [])
    ensures BuildOutcome(u, t, backend) == Err(ValueOverflow)
        <==> exists p :: p in t.values && t.values[p] >= Pow2(backend.valueBits(u))
  {
    var bits, ps := backend.valueBits(u), Visits(t);
    if BuildOutcome(u, t, backend) == Err(ValueOverflow) {
      var k := FirstOverflow(t, bits, ps).value;
      NarrowKeeps(t.values[ps[k]], bits);
    }
    if exists p :: p in t.values && t.values[p] >= Pow2(bits) {
      var p :| p in t.values && t.values[p] >= Pow2(bits);
      EnumMembers(t, PreOrder, false, true, p);
      var i :| 0 <= i < |ps| && ps[i] == p;
      NarrowKeeps(t.values[p], bits);
      assert Overflows(t, bits, ps[i]);
    }
  }

  /** A unit whose value type holds the dry run's value size never meets
      an overflow. */
  lemma MinimumParamsNeverOverflow(u: Unit, t: Tree, backend: Backend)
    requires ValidTree(t) && ValuesFit(t) && MinimumParams(t, backend).Ok?
    requires backend.valueBits(u) >= 8 * MinimumParams(t, backend).value.valueSize
    ensures BuildOutcome(u, t, backend) != Err(ValueOverflow)
  {
    var ps := Visits(t);
    ValueSizeHolds(MaxValue(t, ps));
    Pow2Monotone(8 * MinimumParams(t, backend).value.valueSize, backend.valueBits(u));
    NoOverflowBelowBound(t, backend.valueBits(u), ps);
  }

  // ---------------------------------------------------------------------
  // The dispatch chain: BuildBinaryWORMTreeUInt / MakeBinaryWORMTreeUInt
  // ---------------------------------------------------------------------

  /**
   * The `from` of unit (le, o, v): the unit (le, 0, 8) is the terminal one
   * and throws; a unit with value size 0 restarts the chain at (o - 1, 8);
   * any other unit handles a request with exactly its sizes and byte order
   * and passes everything else on to (o, v - 1).
   */
  function Chain(p: Params, le: bool, o: nat, v: nat): (r: Result<Unit>)
    requires o <= 8 && v <= 8 && (o == 0 ==> v == 8)
    ensures r.Ok? ==> r.value == Unit(le, p.offsetSize, p.valueSize) && le == p.isLittleEndian
    ensures r.Err? ==> r.error == InvalidParams(p.offsetSize, p.valueSize)
    decreases o, v
  {
    if o == 0 then Err(InvalidParams(p.offsetSize, p.valueSize))
    else if v == 0 then Chain(p, le, o - 1, 8)
    else if o == p.offsetSize && v == p.valueSize && le == p.isLittleEndian then Ok(Unit(le, o, v))
    else Chain(p, le, o, v - 1)
  }

  /** Starting from unit (o, v), the chain reaches exactly the units not
      before it in the order "value size 8 down to 1 within offset size 8,
      then within 7, ... down to 1". */
  lemma {:induction false} ChainReaches(p: Params, le: bool, o: nat, v: nat)
    requires o <= 8 && v <= 8 && (o == 0 ==> v == 8)
    ensures Chain(p, le, o, v).Ok? <==>
              && le == p.isLittleEndian && 1 <= p.valueSize <= 8 && 1 <= p.offsetSize
              && (p.offsetSize < o || (p.offsetSize == o && p.valueSize <= v))
    decreases o, v
  {
    if o == 0 {
    } else if v == 0 {
      ChainReaches(p, le, o - 1, 8);
    } else if o == p.offsetSize && v == p.valueSize && le == p.isLittleEndian {
    } else {
      ChainReaches(p, le, o, v - 1);
    }
  }

  /** The dispatch of buildWORMTreeUIntGeneric and makeWORMTreeUIntGeneric:
      the byte order picks one of the two chains, entered at (8, 8). It
      succeeds exactly for sizes from 1 to 8, with the unit of those sizes
      and the requested byte order; anything else (a size of 0, or above 8)
      ends at the terminal unit with the requested sizes in the error. */
  function Dispatch(p: Params): (r: Result<Unit>)
    ensures r.Ok? <==> 1 <= p.offsetSize <= 8 && 1 <= p.valueSize <= 8
    ensures r.Ok? ==> r.value == Unit(p.isLittleEndian, p.offsetSize, p.valueSize)
    ensures r.Err? ==> r.error == InvalidParams(p.offsetSize, p.valueSize)
  {
    ChainReaches(p, p.isLittleEndian, 8, 8);
    if p.isLittleEndian then Chain(p, true, 8, 8) else Chain(p, false, 8, 8)
  }

  /** makeWORMTreeUIntGeneric: wrap a buffer in the unit its parameters
      select. Wrapping succeeds exactly for sizes from 1 to 8 and then keeps
      the parameters and the buffer, in the unit of those sizes. */
  function MakeWORMTreeUIntGeneric(treeParams: Params, buffer: seq<bv8>): (r: Result<UIntTree>)
    ensures r.Ok? <==> 1 <= treeParams.offsetSize <= 8 && 1 <= treeParams.valueSize <= 8
    ensures r.Ok? ==>
              r.value == UIntTree(treeParams, Unit(treeParams.isLittleEndian, treeParams.offsetSize, treeParams.valueSize), buffer)
    ensures r.Err? ==> r.error == InvalidParams(treeParams.offsetSize, treeParams.valueSize)
  {
    match Dispatch(treeParams)
    case Err(e) => Err(e)
    case Ok(u) => Ok(UIntTree(treeParams, u, buffer))
  }

  /** What buildWORMTreeUIntGeneric returns. */
  ghost function BuildGeneric(treeParams: Params, t: Tree, backend: Backend): Result<UIntTree> {
    match Dispatch(treeParams)
    case Err(e) => Err(e)
    case Ok(u) =>
      match BuildOutcome(u, t, backend)
      case Err(e) => Err(e)
      case Ok(buffer) => Ok(UIntTree(treeParams, u, buffer))
  }

  /** buildWORMTreeUIntGeneric: dispatch on the parameters, then build
      the buffer in the selected unit. */
  method BuildWORMTreeUIntGeneric(treeParams: Params, t: Tree, backend: Backend) returns (r: Result<UIntTree>)
    requires ValidTree(t) && ValuesFit(t)
    ensures r == BuildGeneric(treeParams, t, backend)
    ensures r.Ok? ==> r.value.treeParams == treeParams
                      && r.value.unit == Unit(treeParams.isLittleEndian, treeParams.offsetSize, treeParams.valueSize)
    ensures (r.Err? && r.error.InvalidParams?)
        <==> !(1 <= treeParams.offsetSize <= 8 && 1 <= treeParams.valueSize <= 8)
  {
    var unit := Dispatch(treeParams);
    if unit.Err? {
      return Err(unit.error);
    }
    var buffer, _ := BuildBinaryWORMTreeUIntBuffer(unit.value, t, backend);
    if buffer.Err? {
      return Err(buffer.error);
    }
    return Ok(UIntTree(treeParams, unit.value, buffer.value));
  }

  /** A built tree keeps the caller's parameters, and wrapping its own
      buffer with the same parameters gives it back; this holds by the
      definitions, since building and wrapping share one dispatch. */
  lemma BuildThenMake(treeParams: Params, t: Tree, backend: Backend)
    requires BuildGeneric(treeParams, t, backend).Ok?
    ensures BuildGeneric(treeParams, t, backend).value.treeParams == treeParams
    ensures MakeWORMTreeUIntGeneric(treeParams, BuildGeneric(treeParams, t, backend).value.buffer)
         == BuildGeneric(treeParams, t, backend)
  {
  }

  /** The dry run's parameters are accepted by the dispatch whenever the
      offset statistic is between 1 and 8 bytes. */
  lemma MinimumParamsDispatch(t: Tree, backend: Backend)
    requires ValidTree(t) && ValuesFit(t) && MinimumParams(t, backend).Ok?
    requires 1 <= MinimumParams(t, backend).value.offsetSize <= 8
    ensures Dispatch(MinimumParams(t, backend).value)
         == Ok(Unit(false, MinimumParams(t, backend).value.offsetSize, MinimumParams(t, backend).value.valueSize))
  {
    MinimumParamsValueSize(t, backend);
  }

  /** The parameters the dry run finds are accepted by the build: it picks
      the big-endian unit of those sizes and never fails on the parameters
      or on narrowing, whenever the offset statistic is 1..8 bytes and the
      unit's value type holds the value size. Only a failed start of the
      session or of its restart remains. */
  lemma FindThenBuild(t: Tree, backend: Backend)
    requires ValidTree(t) && ValuesFit(t) && MinimumParams(t, backend).Ok?
    requires 1 <= MinimumParams(t, backend).value.offsetSize <= 8
    requires backend.valueBits(Unit(false, MinimumParams(t, backend).value.offsetSize, MinimumParams(t, backend).value.valueSize))
             >= 8 * MinimumParams(t, backend).value.valueSize
    ensures BuildGeneric(MinimumParams(t, backend).value, t, backend).Ok? ==>
              BuildGeneric(MinimumParams(t, backend).value, t, backend).value.unit
              == Unit(false, MinimumParams(t, backend).value.offsetSize, MinimumParams(t, backend).value.valueSize)
    ensures BuildGeneric(MinimumParams(t, backend).value, t, backend).Err? ==>
              BuildGeneric(MinimumParams(t, backend).value, t, backend).error in {BuildStartFailed, BuildFinishFailed}
  {
    var p := MinimumParams(t, backend).value;
    var u := Unit(false, p.offsetSize, p.valueSize);
    MinimumParamsDispatch(t, backend);
    MinimumParamsNeverOverflow(u, t, backend);
  }
}
