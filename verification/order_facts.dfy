/**
  What SingleOrder and RealTime decide, and how the composite records combine
  their children: the combined flags of Causal and Linearizable read the child
  record's truthiness, so they do not imply the weaker models.
 */
module OrderFacts {
  import opened Types
  import opened Seqs
  import opened Predicates
  import Text
  import CausalFacts
  import SessionFacts
  import Wrappers

  // ---------------------------------------------------------------- SingleOrder

  lemma OrderStringInjective(s: Serialization, t: Serialization)
    requires NamesOk(s) && NamesOk(t)
    ensures OrderString(s) == OrderString(t) <==> Names(s) == Names(t)
  {
    if OrderString(s) == OrderString(t) {
      Text.JoinInjective(Names(s), Names(t), ' ');
    }
  }

  /** SingleOrder holds exactly when there is at least one serialization and all
      of them list the same names in the same order, reads included. */
  lemma SingleOrderCharacterization(h: History, ss: SystemSerialization)
    requires AllNamesOk(ss)
    ensures IsSingleOrder(h, ss) <==> |ss| > 0 && forall i :: 0 <= i < |ss| ==> Names(ss[i]) == Names(ss[0])
  {
    forall i | 0 <= i < |ss| {
      OrderStringInjective(ss[i], ss[0]);
    }
  }

  /** Without the name condition the encoding conflates serializations: an
      operation with an empty name joins to the same string as no operation. */
  lemma EmptyNameConflatesOrders()
    ensures var v := Operation(Visibility, true, 1, "", 0, 0, 7);
            IsSingleOrder([], [[], [v]]) && Names([]) != Names([v])
  {
    var v := Operation(Visibility, true, 1, "", 0, 0, 7);
    assert OrderString([v]) == "";
    assert OrderString([]) == "";
  }

  // ---------------------------------------------------------------- RealTime

  /** Client 0's serialization lists an operation named `x` before one named `y`. */
  ghost predicate Precedes(s: Serialization, x: string, y: string)
  {
    exists a, b :: 0 <= a < b < |s| && s[a].name == x && s[b].name == y
  }

  lemma SetifiedPairPrecedes(s: Serialization, p: Operation, q: Operation)
    requires SpaceFreeNames(s) && SpaceFree(p.name) && PairKey(p, q) in Setify(s)
    ensures Precedes(s, p.name, q.name)
  {
    var a, b :| 0 <= a < b < |s| && PairKey(p, q) == PairKey(s[a], s[b]);
    assert SpaceFree(s[a].name);
    CausalFacts.PairKeyInjective(p, q, s[a], s[b]);
  }

  lemma PrecedingPairSetified(s: Serialization, p: Operation, q: Operation)
    requires Precedes(s, p.name, q.name)
    ensures PairKey(p, q) in Setify(s)
  {
    var a, b :| 0 <= a < b < |s| && s[a].name == p.name && s[b].name == q.name;
    assert PairKey(p, q) == PairKey(s[a], s[b]);
  }

  lemma SetifyPrecedes(s: Serialization, p: Operation, q: Operation)
    requires SpaceFreeNames(s) && SpaceFree(p.name)
    ensures PairKey(p, q) in Setify(s) <==> Precedes(s, p.name, q.name)
  {
    if PairKey(p, q) in Setify(s) {
      SetifiedPairPrecedes(s, p, q);
    }
    if Precedes(s, p.name, q.name) {
      PrecedingPairSetified(s, p, q);
    }
  }

  /** Every flattened pair at positions i < j with endTime_i < endTime_j is listed in that order by `s`. */
  ghost predicate ReturnsBeforeRespected(all: seq<Operation>, s: Serialization)
  {
    forall i, j :: 0 <= i < j < |all| && all[i].endTime < all[j].endTime ==> Precedes(s, all[i].name, all[j].name)
  }

  lemma FlattenSpaceFree(h: History, i: int)
    requires AllSpaceFree(h) && 0 <= i < |Flatten(h)|
    ensures SpaceFree(Flatten(h)[i].name)
  {
    FlattenMembers(h, Flatten(h)[i]);
  }

  /** In a well-formed history, two operations that share the identity key
      (clientId, operationName, isHistory) are the same operation. */
  lemma HistoryIdentifiedByKey(h: History)
    requires WellFormedHistory(h)
    ensures IdentifiedByKey(Flatten(h))
  {
    var all := Flatten(h);
    forall i, j | 0 <= i < |all| && 0 <= j < |all| && IdentityKey(all[i]) == IdentityKey(all[j])
      ensures all[i] == all[j]
    {
      FlattenMembers(h, all[i]);
      FlattenMembers(h, all[j]);
      var c :| 0 <= c < |h| && all[i] in h[c];
      var k :| 0 <= k < |h[c]| && h[c][k] == all[i];
      var d :| 0 <= d < |h| && all[j] in h[d];
      var m :| 0 <= m < |h[d]| && h[d][m] == all[j];
      assert h[c][k].name == h[d][m].name;
    }
  }

  /** RealTime holds exactly when SingleOrder holds and client 0's serialization
      orders every returns-before pair of the flattened history, compared end
      time against end time and only in flattened order. */
  lemma RealTimeCharacterization(h: History, ss: SystemSerialization)
    requires AllSpaceFree(h) && AllSpaceFree(ss)
    ensures IsRealTime(h, ss) <==> IsSingleOrder(h, ss) && ReturnsBeforeRespected(Flatten(h), ss[0])
  {
    if IsSingleOrder(h, ss) {
      var all := Flatten(h);
      forall i, j | 0 <= i < j < |all|
        ensures PairKey(all[i], all[j]) in Setify(ss[0]) <==> Precedes(ss[0], all[i].name, all[j].name)
      {
        FlattenSpaceFree(h, i);
        SetifyPrecedes(ss[0], all[i], all[j]);
      }
    }
  }

  /** A history operation missing from client 0's serialization fails RealTime
      as soon as some later flattened operation ends after it. */
  lemma AbsentOperationFailsRealTime(h: History, ss: SystemSerialization, i: int, j: int)
    requires AllSpaceFree(h) && AllSpaceFree(ss)
    requires 0 <= i < j < |Flatten(h)| && Flatten(h)[i].endTime < Flatten(h)[j].endTime
    requires |ss| > 0 && Flatten(h)[i].name !in Names(ss[0])
    ensures !IsRealTime(h, ss)
  {
    RealTimeCharacterization(h, ss);
    var all := Flatten(h);
    forall a | 0 <= a < |ss[0]|
      ensures ss[0][a].name != all[i].name
    {
      assert Names(ss[0])[a] == ss[0][a].name;
    }
  }

  /** Only pairs in flattened order are examined: B returns before A, yet the
      single order A, B passes, because B comes after A in the flattened history. */
  lemma RealTimeIgnoresReversedPairs()
    ensures var a := Operation(Write, true, 0, "A", 1, 0, 20);
            var b := Operation(Write, true, 1, "B", 2, 0, 10);
            b.endTime < a.endTime && IsRealTime([[a], [b]], [[a, b], [a, b]])
  {
    var a := Operation(Write, true, 0, "A", 1, 0, 20);
    var b := Operation(Write, true, 1, "B", 2, 0, 10);
    assert [[a], [b]][1..] == [[b]];
    assert Flatten([[b]]) == [b] + Flatten([]);
    assert Flatten([[a], [b]]) == [a, b];
  }

  // ---------------------------------------------------------------- composites

  /** A client that reads a value nobody wrote. */
  function StrayRead(): Operation
  {
    Operation(Read, true, 0, "A", 5, 0, 7)
  }

  /** The Causal flag can be set while the PRAM flag is not: the PRAM record is truthy whatever it says. */
  lemma CausalFlagIgnoresPram()
    ensures IsCausal([[StrayRead()]], [[StrayRead()]]).isCausal
    ensures !IsCausal([[StrayRead()]], [[StrayRead()]]).pram.isPRAM
  {
    var h := [[StrayRead()]];
    var vm := ValueMap(h);
    assert Flatten(h) == [StrayRead()];
    assert vm == map[];
    assert SystemEdges(h, vm, 0, {}) == {};
    assert OfKind([StrayRead()], Write) == [];
    assert !RywFrom([StrayRead()], 0, []);
  }

  /** The Linearizable flag can be set while neither PRAM nor RVal holds. */
  lemma LinearizableFlagIgnoresSequential()
    ensures IsLinearizable([[StrayRead()]], [[StrayRead()]]).isLinearizable
    ensures !IsLinearizable([[StrayRead()]], [[StrayRead()]]).sequential.causal.pram.isPRAM
    ensures !IsRval([[StrayRead()]], [[StrayRead()]])
  {
    var h := [[StrayRead()]];
    assert Flatten(h) == [StrayRead()];
    assert !RywFrom([StrayRead()], 0, []);
    assert !RvalFrom([StrayRead()], 0, Wrappers.None);
  }

  /** PRAM in declarative terms: in every serialization the Read values are a
      subsequence of the Write values, every client history occurs in order among
      its Writes, and every non-Write reads a value written earlier in it. */
  ghost predicate PramSpec(h: History, ss: SystemSerialization)
  {
    && (forall i :: 0 <= i < |ss| ==> IsSubsequence(Values(OfKind(ss[i], Read)), Values(OfKind(ss[i], Write))))
    && (forall i, c :: 0 <= i < |ss| && 0 <= c < |h| ==> SessionFacts.InIncreasingOrder(h[c], OfKind(ss[i], Write)))
    && (forall i :: 0 <= i < |ss| ==> SessionFacts.RywSpec(ss[i]))
  }

  /** The PRAM flag is the conjunction of the three session guarantees. */
  lemma PramCharacterization(h: History, ss: SystemSerialization)
    ensures IsPRAM(h, ss).isPRAM <==> PramSpec(h, ss)
  {
    SessionFacts.MonotonicReadsCharacterization(h, ss);
    SessionFacts.MonotonicWritesCharacterization(h, ss);
    SessionFacts.RywCharacterization(h, ss);
  }

  lemma NamesOkAreSpaceFree(ss: SystemSerialization)
    requires AllNamesOk(ss)
    ensures AllSpaceFree(ss)
  {
    forall c, k | 0 <= c < |ss| && 0 <= k < |ss[c]|
      ensures SpaceFree(ss[c][k].name)
    {
      assert NameOk(ss[c][k].name);
    }
  }

  /** What the Sequential record reports: SingleOrder (one shared name order),
      the Causal flag (every serialized pair of Writes is a causal edge) and,
      inside it, PRAM; RVal is not consulted and no flag combines them. */
  lemma SequentialCharacterization(h: History, ss: SystemSerialization)
    requires AllSpaceFree(h) && AllNamesOk(ss)
    ensures IsSequential(h, ss).isSingleOrder <==> |ss| > 0 && forall i :: 0 <= i < |ss| ==> Names(ss[i]) == Names(ss[0])
    ensures IsSequential(h, ss).causal.isCausal <==>
              forall i :: 0 <= i < |ss| ==> CausalFacts.PairsAreCausal(h, OfKind(ss[i], Write))
    ensures IsSequential(h, ss).causal.pram.isPRAM <==> PramSpec(h, ss)
  {
    NamesOkAreSpaceFree(ss);
    SingleOrderCharacterization(h, ss);
    CausalFacts.WritesFollowReadsCharacterization(h, ss);
    PramCharacterization(h, ss);
  }

  /** The Linearizable flag: one shared name order in which client 0 lists every
      returns-before pair of the flattened history. */
  lemma LinearizableCharacterization(h: History, ss: SystemSerialization)
    requires AllSpaceFree(h) && AllNamesOk(ss)
    ensures IsLinearizable(h, ss).isLinearizable <==>
              && |ss| > 0 && (forall i :: 0 <= i < |ss| ==> Names(ss[i]) == Names(ss[0]))
              && ReturnsBeforeRespected(Flatten(h), ss[0])
  {
    NamesOkAreSpaceFree(ss);
    SingleOrderCharacterization(h, ss);
    RealTimeCharacterization(h, ss);
  }
}
