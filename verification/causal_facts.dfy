/**
  What WritesFollowReads decides: the value map keeps the last Write of each
  value, the edge collection pairs each resolved Read's source Write with every
  later Write of the same history and stops for good at the first unresolved
  Read, and WritesFollowReads asks every in-order pair of a serialization's Writes to be
  such an edge.
 */
module CausalFacts {
  import opened Types
  import opened Seqs
  import opened Predicates
  import Text

  // ---------------------------------------------------------------- pair keys

  /** The `"a b"` encoding is injective on names without spaces. */
  lemma PairKeyInjective(a: Operation, b: Operation, c: Operation, d: Operation)
    requires SpaceFree(a.name) && SpaceFree(c.name)
    ensures PairKey(a, b) == PairKey(c, d) <==> a.name == c.name && b.name == d.name
  {
    if PairKey(a, b) == PairKey(c, d) {
      var k := PairKey(a, b);
      Text.FirstSeparatorAfter(a.name, ' ', b.name);
      Text.FirstSeparatorAfter(c.name, ' ', d.name);
      assert a.name == k[..|a.name|] == c.name;
      assert b.name == k[|a.name| + 1..] == d.name;
    }
  }

  // ---------------------------------------------------------------- value map

  /** The Write at `k` is the last Write of `ops` carrying value `v`. */
  ghost predicate LastWriteOf(ops: seq<Operation>, k: int, v: int)
  {
    && 0 <= k < |ops| && ops[k].kind == Write && ops[k].value == v
    && forall m :: k < m < |ops| ==> ops[m].kind != Write || ops[m].value != v
  }

  lemma {:induction false} ValueMapFromSpec(ops: seq<Operation>, i: nat, m: map<int, Operation>, v: int)
    requires i <= |ops|
    requires forall u :: u in m ==> m[u].value == u
    ensures v in ValueMapFrom(ops, i, m) <==>
      v in m || exists k :: i <= k < |ops| && ops[k].kind == Write && ops[k].value == v
    ensures v in ValueMapFrom(ops, i, m) ==>
      (exists k :: i <= k && LastWriteOf(ops, k, v) && ValueMapFrom(ops, i, m)[v] == ops[k])
      || (v in m && ValueMapFrom(ops, i, m)[v] == m[v] && forall k :: i <= k < |ops| ==> ops[k].kind != Write || ops[k].value != v)
    decreases |ops| - i
  {
    if i < |ops| {
      var m' := if ops[i].kind == Write then m[ops[i].value := ops[i]] else m;
      ValueMapFromSpec(ops, i + 1, m', v);
      var r := ValueMapFrom(ops, i, m);
      assert r == ValueMapFrom(ops, i + 1, m');
      if v in r && ops[i].kind == Write && ops[i].value == v && r[v] == ops[i] {
        if forall k :: i + 1 <= k < |ops| ==> ops[k].kind != Write || ops[k].value != v {
          assert LastWriteOf(ops, i, v);
        }
      }
    }
  }

  /** `valueMap` knows exactly the values some Write of the history carries, and
      maps each to the last such Write in client-then-position order. */
  lemma ValueMapKeepsLastWrite(h: History, v: int)
    ensures v in ValueMap(h) <==> exists k :: 0 <= k < |Flatten(h)| && Flatten(h)[k].kind == Write && Flatten(h)[k].value == v
    ensures v in ValueMap(h) ==> exists k :: LastWriteOf(Flatten(h), k, v) && ValueMap(h)[v] == Flatten(h)[k]
  {
    var ops := Flatten(h);
    assert ValueMap(h) == ValueMapFrom(ops, 0, map[]);
    ValueMapFromSpec(ops, 0, map[], v);
  }

  // ---------------------------------------------------------------- edge collection

  ghost predicate Resolved(ops: seq<Operation>, vm: map<int, Operation>, a: int)
    requires 0 <= a < |ops|
  {
    ops[a].kind != Read || ops[a].value in vm
  }

  ghost predicate AllResolved(ops: seq<Operation>, vm: map<int, Operation>)
  {
    forall a :: 0 <= a < |ops| ==> Resolved(ops, vm, a)
  }

  /** The Read at `a` and the later Write at `b` form an edge when every Read from `i` up to `a` resolves. */
  ghost predicate EdgeAt(ops: seq<Operation>, vm: map<int, Operation>, i: int, a: int, b: int)
  {
    && 0 <= i <= a < b < |ops| && ops[a].kind == Read && ops[b].kind == Write
    && (forall a' :: i <= a' <= a ==> Resolved(ops, vm, a'))
    && ops[a].value in vm
  }

  ghost predicate ClientEdge(ops: seq<Operation>, vm: map<int, Operation>, i: int, key: string)
  {
    exists a, b :: EdgeAt(ops, vm, i, a, b) && key == PairKey(vm[ops[a].value], ops[b])
  }

  lemma {:induction false} LaterWriteKeysSpec(ops: seq<Operation>, source: Operation, j: nat, key: string)
    requires j <= |ops|
    ensures key in LaterWriteKeys(ops, source, j) <==>
      exists b :: j <= b < |ops| && ops[b].kind == Write && key == PairKey(source, ops[b])
    decreases |ops| - j
  {
    if j < |ops| {
      LaterWriteKeysSpec(ops, source, j + 1, key);
    }
  }

  /** No edge is collected from the position of an unresolved Read on. */
  lemma NoEdgePastUnresolved(ops: seq<Operation>, vm: map<int, Operation>, i: nat, key: string)
    requires i < |ops| && !Resolved(ops, vm, i)
    ensures !ClientEdge(ops, vm, i, key)
  {
    forall a, b | i <= a
      ensures !EdgeAt(ops, vm, i, a, b)
    {
      assert !Resolved(ops, vm, i);
    }
  }

  /** Past a position that is not a Read, the edges are those from the next one. */
  lemma ClientEdgePastNonRead(ops: seq<Operation>, vm: map<int, Operation>, i: nat, key: string)
    requires i < |ops| && ops[i].kind != Read
    ensures ClientEdge(ops, vm, i, key) <==> ClientEdge(ops, vm, i + 1, key)
  {
    if ClientEdge(ops, vm, i + 1, key) {
      var a, b :| EdgeAt(ops, vm, i + 1, a, b) && key == PairKey(vm[ops[a].value], ops[b]);
      assert EdgeAt(ops, vm, i, a, b);
    }
    if ClientEdge(ops, vm, i, key) {
      var a, b :| EdgeAt(ops, vm, i, a, b) && key == PairKey(vm[ops[a].value], ops[b]);
      assert EdgeAt(ops, vm, i + 1, a, b);
    }
  }

  /** A resolved Read adds the edges from its source Write to every later Write. */
  lemma ClientEdgePastRead(ops: seq<Operation>, vm: map<int, Operation>, i: nat, key: string)
    requires i < |ops| && ops[i].kind == Read && ops[i].value in vm
    ensures ClientEdge(ops, vm, i, key) <==>
              ClientEdge(ops, vm, i + 1, key) ||
              exists b :: i + 1 <= b < |ops| && ops[b].kind == Write && key == PairKey(vm[ops[i].value], ops[b])
  {
    var src := vm[ops[i].value];
    if exists b :: i + 1 <= b < |ops| && ops[b].kind == Write && key == PairKey(src, ops[b]) {
      var b :| i + 1 <= b < |ops| && ops[b].kind == Write && key == PairKey(src, ops[b]);
      assert EdgeAt(ops, vm, i, i, b);
    }
    if ClientEdge(ops, vm, i + 1, key) {
      var a, b :| EdgeAt(ops, vm, i + 1, a, b) && key == PairKey(vm[ops[a].value], ops[b]);
      assert EdgeAt(ops, vm, i, a, b);
    }
    if ClientEdge(ops, vm, i, key) {
      var a, b :| EdgeAt(ops, vm, i, a, b) && key == PairKey(vm[ops[a].value], ops[b]);
      if a > i {
        assert EdgeAt(ops, vm, i + 1, a, b);
      }
    }
  }

  lemma {:induction false} ClientEdgesSpec(ops: seq<Operation>, vm: map<int, Operation>, i: nat, acc: set<string>, key: string)
    requires i <= |ops|
    ensures ClientEdges(ops, vm, i, acc).1 <==> forall a :: i <= a < |ops| ==> Resolved(ops, vm, a)
    ensures key in ClientEdges(ops, vm, i, acc).0 <==> key in acc || ClientEdge(ops, vm, i, key)
    decreases |ops| - i
  {
    if i < |ops| {
      if ops[i].kind == Read && ops[i].value !in vm {
        NoEdgePastUnresolved(ops, vm, i, key);
      } else if ops[i].kind == Read {
        var src := vm[ops[i].value];
        ClientEdgesSpec(ops, vm, i + 1, acc + LaterWriteKeys(ops, src, i + 1), key);
        LaterWriteKeysSpec(ops, src, i + 1, key);
        ClientEdgePastRead(ops, vm, i, key);
      } else {
        ClientEdgesSpec(ops, vm, i + 1, acc, key);
        ClientEdgePastNonRead(ops, vm, i, key);
      }
    }
  }

  /** Client `c`'s edges count when every client before it, from `c0` on, resolved all its Reads. */
  ghost predicate SystemEdge(h: History, vm: map<int, Operation>, c0: int, key: string)
  {
    exists c :: 0 <= c0 <= c < |h| && (forall c' :: c0 <= c' < c ==> AllResolved(h[c'], vm)) && ClientEdge(h[c], vm, 0, key)
  }

  lemma {:induction false} SystemEdgesSpec(h: History, vm: map<int, Operation>, c: nat, acc: set<string>, key: string)
    requires c <= |h|
    ensures key in SystemEdges(h, vm, c, acc) <==> key in acc || SystemEdge(h, vm, c, key)
    decreases |h| - c
  {
    if c < |h| {
      var (edges, completed) := ClientEdges(h[c], vm, 0, acc);
      ClientEdgesSpec(h[c], vm, 0, acc, key);
      if completed {
        SystemEdgesSpec(h, vm, c + 1, edges, key);
        if SystemEdge(h, vm, c + 1, key) {
          var c1 :| 0 <= c + 1 <= c1 < |h| && (forall c' :: c + 1 <= c' < c1 ==> AllResolved(h[c'], vm)) && ClientEdge(h[c1], vm, 0, key);
          assert forall c' :: c <= c' < c1 ==> AllResolved(h[c'], vm);
        }
        if SystemEdge(h, vm, c, key) {
          var c1 :| 0 <= c <= c1 < |h| && (forall c' :: c <= c' < c1 ==> AllResolved(h[c'], vm)) && ClientEdge(h[c1], vm, 0, key);
          if c1 > c {
            assert SystemEdge(h, vm, c + 1, key);
          }
        }
      } else {
        if SystemEdge(h, vm, c, key) {
          var c1 :| 0 <= c <= c1 < |h| && (forall c' :: c <= c' < c1 ==> AllResolved(h[c'], vm)) && ClientEdge(h[c1], vm, 0, key);
          assert c1 == c;
        }
      }
    }
  }

  // ---------------------------------------------------------------- the inclusion test

  /** The name-level causal edge: a Read at `a` of client `c` whose value resolves
      to a Write named `x`, followed in the same history by a Write named `y`,
      collected because no Read of an earlier client, nor of client `c` up to `a`,
      failed to resolve. */
  ghost predicate CausalEdge(h: History, x: string, y: string)
  {
    var vm := ValueMap(h);
    exists c, a, b :: 0 <= c < |h| && (forall c' :: 0 <= c' < c ==> AllResolved(h[c'], vm))
      && EdgeAt(h[c], vm, 0, a, b) && vm[h[c][a].value].name == x && h[c][b].name == y
  }

  /** The value map only holds Writes of the history. */
  lemma ValueMapFromHistory(h: History, v: int)
    requires v in ValueMap(h)
    ensures exists c, k :: 0 <= c < |h| && 0 <= k < |h[c]| && ValueMap(h)[v] == h[c][k]
  {
    ValueMapKeepsLastWrite(h, v);
    var k :| LastWriteOf(Flatten(h), k, v) && ValueMap(h)[v] == Flatten(h)[k];
    FlattenMembers(h, Flatten(h)[k]);
  }

  lemma EdgeKeyIsEdgeNames(h: History, x: Operation, y: Operation)
    requires AllSpaceFree(h) && SpaceFree(x.name) && SpaceFree(y.name)
    ensures SystemEdge(h, ValueMap(h), 0, PairKey(x, y)) <==> CausalEdge(h, x.name, y.name)
  {
    var vm := ValueMap(h);
    var key := PairKey(x, y);
    if SystemEdge(h, vm, 0, key) {
      var c :| 0 <= c < |h| && (forall c' :: 0 <= c' < c ==> AllResolved(h[c'], vm)) && ClientEdge(h[c], vm, 0, key);
      var a, b :| EdgeAt(h[c], vm, 0, a, b) && key == PairKey(vm[h[c][a].value], h[c][b]);
      ValueMapFromHistory(h, h[c][a].value);
      PairKeyInjective(x, y, vm[h[c][a].value], h[c][b]);
    }
    if CausalEdge(h, x.name, y.name) {
      var c, a, b :| 0 <= c < |h| && (forall c' :: 0 <= c' < c ==> AllResolved(h[c'], vm))
        && EdgeAt(h[c], vm, 0, a, b) && vm[h[c][a].value].name == x.name && h[c][b].name == y.name;
      assert key == PairKey(vm[h[c][a].value], h[c][b]);
      assert ClientEdge(h[c], vm, 0, key);
    }
  }

  lemma SerializedPairIsEdge(h: History, ss: SystemSerialization, i: int, a: int, b: int)
    requires AllSpaceFree(h) && AllSpaceFree(ss)
    requires 0 <= i < |ss| && 0 <= a < b < |OfKind(ss[i], Write)|
    ensures PairKey(OfKind(ss[i], Write)[a], OfKind(ss[i], Write)[b]) in SystemEdges(h, ValueMap(h), 0, {}) <==>
      CausalEdge(h, OfKind(ss[i], Write)[a].name, OfKind(ss[i], Write)[b].name)
  {
    var w := OfKind(ss[i], Write);
    assert w[a] in ss[i] && w[b] in ss[i];
    assert SpaceFreeNames(ss[i]);
    SystemEdgesSpec(h, ValueMap(h), 0, {}, PairKey(w[a], w[b]));
    EdgeKeyIsEdgeNames(h, w[a], w[b]);
  }

  /** The subset test of one serialization, pair by pair. */
  lemma SetifySubset(ops: seq<Operation>, edges: set<string>)
    ensures Setify(ops) <= edges <==> forall a, b :: 0 <= a < b < |ops| ==> PairKey(ops[a], ops[b]) in edges
  {
  }

  /** Every pair of `writes` listed in order is a causal edge of `h`. */
  ghost predicate PairsAreCausal(h: History, writes: seq<Operation>)
  {
    forall a, b :: 0 <= a < b < |writes| ==> CausalEdge(h, writes[a].name, writes[b].name)
  }

  lemma SerializationFollowsReads(h: History, ss: SystemSerialization, i: int)
    requires AllSpaceFree(h) && AllSpaceFree(ss) && 0 <= i < |ss|
    ensures Setify(OfKind(ss[i], Write)) <= SystemEdges(h, ValueMap(h), 0, {}) <==> PairsAreCausal(h, OfKind(ss[i], Write))
  {
    SetifySubset(OfKind(ss[i], Write), SystemEdges(h, ValueMap(h), 0, {}));
    forall a, b | 0 <= a < b < |OfKind(ss[i], Write)| {
      SerializedPairIsEdge(h, ss, i, a, b);
    }
  }

  /** WritesFollowReads holds exactly when every pair of Writes that a
      serialization lists in order is a causal edge: the subset test runs from
      the serialization's pairs into the edges, not the other way round. */
  lemma WritesFollowReadsCharacterization(h: History, ss: SystemSerialization)
    requires AllSpaceFree(h) && AllSpaceFree(ss)
    ensures IsWritesFollowReads(h, ss) <==> forall i :: 0 <= i < |ss| ==> PairsAreCausal(h, OfKind(ss[i], Write))
  {
    var edges := SystemEdges(h, ValueMap(h), 0, {});
    assert IsWritesFollowReads(h, ss) <==> forall i :: 0 <= i < |ss| ==> Setify(OfKind(ss[i], Write)) <= edges;
    forall i | 0 <= i < |ss|
      ensures Setify(OfKind(ss[i], Write)) <= edges <==> PairsAreCausal(h, OfKind(ss[i], Write))
    {
      SerializationFollowsReads(h, ss, i);
    }
  }

  /** A history without Reads yields no causal edges. */
  lemma NoReadsNoEdges(h: History, key: string)
    requires forall c, k :: 0 <= c < |h| && 0 <= k < |h[c]| ==> h[c][k].kind != Read
    ensures key !in SystemEdges(h, ValueMap(h), 0, {})
  {
    SystemEdgesSpec(h, ValueMap(h), 0, {}, key);
  }

  /** In a history without Reads, any serialization that lists two Writes in
      order fails WritesFollowReads: there are no edges for their key to be in. */
  lemma {:induction false} ReadFreeHistoryFailsWritesFollowReads(h: History, ss: SystemSerialization, i: int, a: int, b: int)
    requires forall c, k :: 0 <= c < |h| && 0 <= k < |h[c]| ==> h[c][k].kind != Read
    requires 0 <= i < |ss| && 0 <= a < b < |OfKind(ss[i], Write)|
    ensures !IsWritesFollowReads(h, ss)
  {
    var w := OfKind(ss[i], Write);
    NoReadsNoEdges(h, PairKey(w[a], w[b]));
    assert PairKey(w[a], w[b]) in Setify(w);
  }

  /** A single client's two Writes, serialized in program order, fail
      WritesFollowReads when the history holds no Read at all. */
  lemma IndependentWritesFailWritesFollowReads()
    ensures var a := Operation(Write, true, 0, "A", 1, 3, 10);
            var b := Operation(Write, true, 0, "B", 2, 13, 20);
            !IsWritesFollowReads([[a, b]], [[a, b]])
  {
    var a := Operation(Write, true, 0, "A", 1, 3, 10);
    var b := Operation(Write, true, 0, "B", 2, 13, 20);
    assert OfKind([a, b], Write) == [a, b];
    ReadFreeHistoryFailsWritesFollowReads([[a, b]], [[a, b]], 0, 0, 1);
  }
}
