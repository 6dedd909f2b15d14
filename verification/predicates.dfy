/**
  The boolean consistency checks of the engine, each a total function of a
  history and a system serialization, written the way the TypeScript evaluates
  them: left-to-right scans with the same accumulators, the same early exits and
  the same string encodings. Their meaning is established by the lemmas of the
  modules SessionFacts, CausalFacts and OrderFacts.
 */
module Predicates {
  import opened Wrappers
  import opened Types
  import opened Seqs
  import opened Text

  /** The operations of `s` of the given kind, in order (`filter(s => s.type == kind)`). */
  function OfKind(s: seq<Operation>, kind: OpKind): (r: seq<Operation>)
    ensures |r| <= |s|
    ensures forall k :: 0 <= k < |r| ==> r[k].kind == kind && r[k] in s
    ensures forall k :: 0 <= k < |s| && s[k].kind == kind ==> s[k] in r
  {
    if |s| == 0 then []
    else if s[0].kind == kind then [s[0]] + OfKind(s[1..], kind)
    else OfKind(s[1..], kind)
  }

  /** `map(s => s.value)`. */
  function Values(s: seq<Operation>): (r: seq<int>)
    ensures |r| == |s| && forall k :: 0 <= k < |s| ==> r[k] == s[k].value
  {
    seq(|s|, k requires 0 <= k < |s| => s[k].value)
  }

  // ---------------------------------------------------------------- RVal

  /** One serialization's RVal scan from position `i`, `last` holding the value
      of the most recent Write (`null` before the first one). Any non-Write
      operation, Visibility included, must carry exactly that value. */
  predicate RvalFrom(s: Serialization, i: nat, last: Option<int>)
    requires i <= |s|
    decreases |s| - i
  {
    if i == |s| then true
    else if s[i].kind == Write then RvalFrom(s, i + 1, Some(s[i].value))
    else last == Some(s[i].value) && RvalFrom(s, i + 1, last)
  }

  predicate IsRval(h: History, ss: SystemSerialization)
  {
    forall i :: 0 <= i < |ss| ==> RvalFrom(ss[i], 0, None)
  }

  // ---------------------------------------------------------------- ReadYourWrites

  /** One serialization's scan from position `i`; `written` lists the values of
      the Writes passed so far. Every non-Write must carry one of them. */
  predicate RywFrom(s: Serialization, i: nat, written: seq<int>)
    requires i <= |s|
    decreases |s| - i
  {
    if i == |s| then true
    else if s[i].kind == Write then RywFrom(s, i + 1, written + [s[i].value])
    else s[i].value in written && RywFrom(s, i + 1, written)
  }

  predicate IsReadYourWrites(h: History, ss: SystemSerialization)
  {
    forall i :: 0 <= i < |ss| ==> RywFrom(ss[i], 0, [])
  }

  // ---------------------------------------------------------------- MonotonicWrites

  /** One history checked against one serialization's Writes, from history
      position `i`: each operation's first index among `writes` (-1 when absent)
      must exceed the previous one's, starting from -1. */
  predicate MonotonicFrom(ops: seq<Operation>, writes: seq<Operation>, i: nat, last: int)
    requires i <= |ops|
    decreases |ops| - i
  {
    if i == |ops| then true
    else
      var next := IndexOf(writes, ops[i]);
      next > last && MonotonicFrom(ops, writes, i + 1, next)
  }

  predicate IsMonotonicWrites(h: History, ss: SystemSerialization)
  {
    forall i, c :: 0 <= i < |ss| && 0 <= c < |h| ==> MonotonicFrom(h[c], OfKind(ss[i], Write), 0, -1)
  }

  // ---------------------------------------------------------------- MonotonicReads

  /** The greedy scan: each read value is looked up among the remaining write
      values and everything up to its first match is dropped; a read with no
      match fails. */
  predicate GreedyMatch(readValues: seq<int>, writeValues: seq<int>)
    decreases |readValues|
  {
    if |readValues| == 0 then true
    else
      var k := IndexOf(writeValues, readValues[0]);
      k >= 0 && GreedyMatch(readValues[1..], writeValues[k + 1..])
  }

  predicate IsMonotonicReads(h: History, ss: SystemSerialization)
  {
    forall i :: 0 <= i < |ss| ==> GreedyMatch(Values(OfKind(ss[i], Read)), Values(OfKind(ss[i], Write)))
  }

  // ---------------------------------------------------------------- WritesFollowReads

  /** `operationTupleToString`: the key `"a b"` of an ordered pair of operations. */
  function PairKey(a: Operation, b: Operation): string
  {
    a.name + " " + b.name
  }

  /** `setify`: the keys of every pair of entries of `ops` in order. */
  function Setify(ops: seq<Operation>): (r: set<string>)
    ensures forall i, j :: 0 <= i < j < |ops| ==> PairKey(ops[i], ops[j]) in r
    ensures forall e :: e in r ==> exists i, j :: 0 <= i < j < |ops| && e == PairKey(ops[i], ops[j])
  {
    set i, j | 0 <= i < j < |ops| :: PairKey(ops[i], ops[j])
  }

  /** `valueMap` filled from `ops` (the history flattened in client order) from
      position `i` on: each Write overwrites the entry for its value. */
  function ValueMapFrom(ops: seq<Operation>, i: nat, m: map<int, Operation>): map<int, Operation>
    requires i <= |ops|
    decreases |ops| - i
  {
    if i == |ops| then m
    else if ops[i].kind == Write then ValueMapFrom(ops, i + 1, m[ops[i].value := ops[i]])
    else ValueMapFrom(ops, i + 1, m)
  }

  function ValueMap(h: History): map<int, Operation>
  {
    ValueMapFrom(Flatten(h), 0, map[])
  }

  /** The inner loop: the keys pairing `source` with every Write at or after position `j`. */
  function LaterWriteKeys(ops: seq<Operation>, source: Operation, j: nat): set<string>
    requires j <= |ops|
    decreases |ops| - j
  {
    if j == |ops| then {}
    else if ops[j].kind == Write then {PairKey(source, ops[j])} + LaterWriteKeys(ops, source, j + 1)
    else LaterWriteKeys(ops, source, j + 1)
  }

  /** One client's edge collection from position `i`. The flag is the callback's
      return value: false when a Read's value has no Write in `vm`, at which
      point the keys gathered so far are kept and the scan stops. */
  function ClientEdges(ops: seq<Operation>, vm: map<int, Operation>, i: nat, acc: set<string>): (set<string>, bool)
    requires i <= |ops|
    decreases |ops| - i
  {
    if i == |ops| then (acc, true)
    else if ops[i].kind == Read then
      if ops[i].value !in vm then (acc, false)
      else ClientEdges(ops, vm, i + 1, acc + LaterWriteKeys(ops, vm[ops[i].value], i + 1))
    else ClientEdges(ops, vm, i + 1, acc)
  }

  /** The clients from `c` on; `every` stops at the first client whose callback returned false. */
  function SystemEdges(h: History, vm: map<int, Operation>, c: nat, acc: set<string>): set<string>
    requires c <= |h|
    decreases |h| - c
  {
    if c == |h| then acc
    else
      var (edges, completed) := ClientEdges(h[c], vm, 0, acc);
      if completed then SystemEdges(h, vm, c + 1, edges) else edges
  }

  /** Every ordered pair of each serialization's Writes must be a collected causal edge. */
  predicate IsWritesFollowReads(h: History, ss: SystemSerialization)
  {
    var edges := SystemEdges(h, ValueMap(h), 0, {});
    forall i :: 0 <= i < |ss| ==> Setify(OfKind(ss[i], Write)) <= edges
  }

  // ---------------------------------------------------------------- SingleOrder

  /** A serialization's names joined by single spaces, as compared by SingleOrder. */
  function OrderString(s: Serialization): string
  {
    JoinWith(Names(s), " ")
  }

  /** False for an empty system serialization; otherwise every serialization's
      joined name list, reads included, must equal client 0's. */
  predicate IsSingleOrder(h: History, ss: SystemSerialization)
  {
    if |ss| == 0 then false
    else forall i :: 0 <= i < |ss| ==> OrderString(ss[i]) == OrderString(ss[0])
  }

  // ---------------------------------------------------------------- RealTime

  /** Undefined, hence false, without a single order; otherwise every pair of
      flattened history operations at positions i < j whose end times satisfy
      endTime_i < endTime_j must appear in that order in client 0's serialization. */
  predicate IsRealTime(h: History, ss: SystemSerialization)
  {
    if !IsSingleOrder(h, ss) then false
    else
      var arbitration := Setify(ss[0]);
      var all := Flatten(h);
      forall i, j :: 0 <= i < j < |all| && all[i].endTime < all[j].endTime ==> PairKey(all[i], all[j]) in arbitration
  }

  // ---------------------------------------------------------------- composites

  datatype PramResult = PramResult(isMonotonicReads: bool, isMonotonicWrites: bool, isReadYourWrites: bool, isPRAM: bool)

  datatype CausalResult = CausalResult(pram: PramResult, isWritesFollowReads: bool, isCausal: bool)

  /** The sequential result carries no combined flag of its own. */
  datatype SequentialResult = SequentialResult(causal: CausalResult, isSingleOrder: bool)

  datatype LinearizableResult = LinearizableResult(sequential: SequentialResult, isRealTime: bool, isLinearizable: bool)

  /** `ToBoolean` of an object (section 7.1.2 of ECMA-262): every object, the
      result records included, converts to true, so `record && b` is `b`. */
  predicate IsTruthyObject<T>(o: T)
  {
    true
  }

  function IsPRAM(h: History, ss: SystemSerialization): (r: PramResult)
    ensures r.isPRAM <==> IsMonotonicReads(h, ss) && IsMonotonicWrites(h, ss) && IsReadYourWrites(h, ss)
    ensures r.isMonotonicReads == IsMonotonicReads(h, ss)
    ensures r.isMonotonicWrites == IsMonotonicWrites(h, ss)
    ensures r.isReadYourWrites == IsReadYourWrites(h, ss)
  {
    var monotonicReads := IsMonotonicReads(h, ss);
    var monotonicWrites := IsMonotonicWrites(h, ss);
    var readYourWrites := IsReadYourWrites(h, ss);
    PramResult(monotonicReads, monotonicWrites, readYourWrites, monotonicReads && monotonicWrites && readYourWrites)
  }

  /** `isCausal` reads the PRAM record's truthiness, not its `isPRAM` flag, so
      the combined flag is the writes-follow-reads result alone. */
  function IsCausal(h: History, ss: SystemSerialization): (r: CausalResult)
    ensures r.isCausal == IsWritesFollowReads(h, ss)
    ensures r.isWritesFollowReads == IsWritesFollowReads(h, ss)
    ensures r.pram == IsPRAM(h, ss)
  {
    var pram := IsPRAM(h, ss);
    var writesFollowReads := IsWritesFollowReads(h, ss);
    CausalResult(pram, writesFollowReads, IsTruthyObject(pram) && writesFollowReads)
  }

  /** RVal is not consulted, and no combined flag is produced. */
  function IsSequential(h: History, ss: SystemSerialization): (r: SequentialResult)
    ensures r.causal == IsCausal(h, ss)
    ensures r.isSingleOrder == IsSingleOrder(h, ss)
  {
    SequentialResult(IsCausal(h, ss), IsSingleOrder(h, ss))
  }

  /** Like `isCausal`, the combined flag reads the child record's truthiness, so it is the real-time result alone. */
  function IsLinearizable(h: History, ss: SystemSerialization): (r: LinearizableResult)
    ensures r.isLinearizable == IsRealTime(h, ss)
    ensures r.isRealTime == IsRealTime(h, ss)
    ensures r.sequential == IsSequential(h, ss)
    ensures r.isLinearizable ==> IsSingleOrder(h, ss)
  {
    var sequential := IsSequential(h, ss);
    var realTime := IsRealTime(h, ss);
    LinearizableResult(sequential, realTime, IsTruthyObject(sequential) && realTime)
  }
}
