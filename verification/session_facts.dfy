/**
  What the per-serialization checks RVal, ReadYourWrites, MonotonicReads and
  MonotonicWrites decide, each against a reference definition stated with
  quantifiers instead of scans.
 */
module SessionFacts {
  import opened Wrappers
  import opened Types
  import opened Seqs
  import opened Predicates

  // ---------------------------------------------------------------- RVal

  /** The Write at `j` is the last Write strictly before position `k`. */
  ghost predicate LastWriteBefore(s: Serialization, j: int, k: int)
  {
    0 <= j < k <= |s| && s[j].kind == Write && forall m :: j < m < k ==> s[m].kind != Write
  }

  /** The operation at `k` carries the value of the nearest Write before it (so one exists). */
  ghost predicate ReadsLatestWrite(s: Serialization, k: int)
    requires 0 <= k < |s|
  {
    exists j :: LastWriteBefore(s, j, k) && s[j].value == s[k].value
  }

  /** Reference RVal for one serialization. */
  ghost predicate RvalSpec(s: Serialization)
  {
    forall k :: 0 <= k < |s| && s[k].kind != Write ==> ReadsLatestWrite(s, k)
  }

  /** `last` is what the scan has recorded after `s[..i]`. */
  ghost predicate Tracks(s: Serialization, i: int, last: Option<int>)
    requires 0 <= i <= |s|
  {
    match last
    case None => forall m :: 0 <= m < i ==> s[m].kind != Write
    case Some(v) => exists j :: LastWriteBefore(s, j, i) && s[j].value == v
  }

  /** Every non-Write from position `i` on reads the latest Write. */
  ghost predicate ReadsLatestFrom(s: Serialization, i: nat)
    requires i <= |s|
    decreases |s| - i
  {
    i == |s| || ((s[i].kind != Write ==> ReadsLatestWrite(s, i)) && ReadsLatestFrom(s, i + 1))
  }

  lemma {:induction false} ReadsLatestFromAll(s: Serialization, i: nat)
    requires i <= |s|
    ensures ReadsLatestFrom(s, i) <==> forall k :: i <= k < |s| && s[k].kind != Write ==> ReadsLatestWrite(s, k)
    decreases |s| - i
  {
    if i < |s| {
      ReadsLatestFromAll(s, i + 1);
    }
  }

  /** Past a Write: the scan records its value, and the Write needs nothing. */
  lemma RvalStepWrite(s: Serialization, i: nat)
    requires i < |s| && s[i].kind == Write
    ensures forall last :: RvalFrom(s, i, last) == RvalFrom(s, i + 1, Some(s[i].value))
    ensures Tracks(s, i + 1, Some(s[i].value))
  {
    assert LastWriteBefore(s, i, i + 1);
  }

  /** Past a non-Write: it must carry the recorded value, and the record stays. */
  lemma RvalStepRead(s: Serialization, i: nat, last: Option<int>)
    requires i < |s| && s[i].kind != Write && Tracks(s, i, last)
    ensures RvalFrom(s, i, last) == (last == Some(s[i].value) && RvalFrom(s, i + 1, last))
    ensures ReadsLatestWrite(s, i) <==> last == Some(s[i].value)
    ensures Tracks(s, i + 1, last)
  {
    ReadsLatestWriteIsTracked(s, i, last);
    match last
    case None =>
    case Some(v) =>
      var j :| LastWriteBefore(s, j, i) && s[j].value == v;
      assert LastWriteBefore(s, j, i + 1);
  }

  lemma {:induction false} RvalFromDecides(s: Serialization, i: nat, last: Option<int>)
    requires i <= |s| && Tracks(s, i, last)
    ensures RvalFrom(s, i, last) <==> ReadsLatestFrom(s, i)
    decreases |s| - i
  {
    if i < |s| {
      if s[i].kind == Write {
        RvalStepWrite(s, i);
        RvalFromDecides(s, i + 1, Some(s[i].value));
      } else {
        RvalStepRead(s, i, last);
        RvalFromDecides(s, i + 1, last);
      }
    }
  }

  lemma ReadsLatestWriteIsTracked(s: Serialization, i: nat, last: Option<int>)
    requires i < |s| && Tracks(s, i, last)
    ensures ReadsLatestWrite(s, i) <==> last == Some(s[i].value)
  {
    match last
    case None =>
      forall j | 0 <= j < i
        ensures !LastWriteBefore(s, j, i)
      {
      }
    case Some(v) =>
      var j' :| LastWriteBefore(s, j', i) && s[j'].value == v;
      forall j | LastWriteBefore(s, j, i)
        ensures j == j'
      {
      }
  }

  /** RVal holds exactly when every non-Write operation (Read or Visibility)
      carries the value of the nearest Write before it in its serialization;
      one that precedes every Write fails. */
  lemma RvalCharacterization(h: History, ss: SystemSerialization)
    ensures IsRval(h, ss) <==> forall i :: 0 <= i < |ss| ==> RvalSpec(ss[i])
  {
    forall i | 0 <= i < |ss|
      ensures RvalFrom(ss[i], 0, None) <==> RvalSpec(ss[i])
    {
      RvalFromDecides(ss[i], 0, None);
      ReadsLatestFromAll(ss[i], 0);
    }
  }

  // ---------------------------------------------------------------- ReadYourWrites

  /** Some Write strictly before `k` carries the value of the operation at `k`. */
  ghost predicate WrittenBefore(s: Serialization, k: int)
    requires 0 <= k < |s|
  {
    exists j :: 0 <= j < k && s[j].kind == Write && s[j].value == s[k].value
  }

  ghost predicate RywSpec(s: Serialization)
  {
    forall k :: 0 <= k < |s| && s[k].kind != Write ==> WrittenBefore(s, k)
  }

  lemma {:induction false} RywFromDecides(s: Serialization, i: nat, written: seq<int>)
    requires i <= |s|
    requires forall v :: v in written <==> exists j :: 0 <= j < i && s[j].kind == Write && s[j].value == v
    ensures RywFrom(s, i, written) <==> forall k :: i <= k < |s| && s[k].kind != Write ==> WrittenBefore(s, k)
    decreases |s| - i
  {
    if i < |s| {
      if s[i].kind == Write {
        var w := written + [s[i].value];
        forall v
          ensures v in w <==> exists j :: 0 <= j < i + 1 && s[j].kind == Write && s[j].value == v
        {
          if v in w && v !in written {
            assert s[i].kind == Write && s[i].value == v;
          }
        }
        RywFromDecides(s, i + 1, w);
      } else {
        RywFromDecides(s, i + 1, written);
      }
    }
  }

  /** ReadYourWrites holds exactly when every non-Write operation's value was
      written by some earlier Write of the same serialization. */
  lemma RywCharacterization(h: History, ss: SystemSerialization)
    ensures IsReadYourWrites(h, ss) <==> forall i :: 0 <= i < |ss| ==> RywSpec(ss[i])
  {
    forall i | 0 <= i < |ss| {
      RywFromDecides(ss[i], 0, []);
    }
  }

  /** Serializations made of Writes alone always pass ReadYourWrites. */
  lemma WriteOnlyPassesRyw(h: History, ss: SystemSerialization)
    requires forall i, k :: 0 <= i < |ss| && 0 <= k < |ss[i]| ==> ss[i][k].kind == Write
    ensures IsReadYourWrites(h, ss)
  {
    RywCharacterization(h, ss);
  }

  /** RVal is the stronger check: the nearest Write is in particular an earlier one. */
  lemma RvalImpliesRyw(h: History, ss: SystemSerialization)
    ensures IsRval(h, ss) ==> IsReadYourWrites(h, ss)
  {
    RvalCharacterization(h, ss);
    RywCharacterization(h, ss);
    if IsRval(h, ss) {
      forall i, k | 0 <= i < |ss| && 0 <= k < |ss[i]| && ss[i][k].kind != Write
        ensures WrittenBefore(ss[i], k)
      {
        assert ReadsLatestWrite(ss[i], k);
        var j :| LastWriteBefore(ss[i], j, k) && ss[i][j].value == ss[i][k].value;
      }
    }
  }

  // ---------------------------------------------------------------- MonotonicReads

  /** Greedy first-match decides the subsequence relation. */
  lemma {:induction false} GreedyMatchDecidesSubsequence(a: seq<int>, b: seq<int>)
    ensures GreedyMatch(a, b) <==> IsSubsequence(a, b)
    decreases |a|
  {
    if |a| == 0 {
      assert Embeds([], a, b);
    } else {
      var k := IndexOf(b, a[0]);
      if GreedyMatch(a, b) {
        GreedyMatchDecidesSubsequence(a[1..], b[k + 1..]);
        var f :| Embeds(f, a[1..], b[k + 1..]);
        var g := PrependShifted(k, f);
        EmbedsPrepend(a, b, k, f);
      } else if IsSubsequence(a, b) {
        var f :| Embeds(f, a, b);
        EmbedsDropFirst(a, b, k, f);
        GreedyMatchDecidesSubsequence(a[1..], b[k + 1..]);
      }
    }
  }

  function PrependShifted(k: nat, f: seq<nat>): seq<nat>
  {
    [k] + seq(|f|, i requires 0 <= i < |f| => f[i] + k + 1)
  }

  lemma EmbedsPrepend(a: seq<int>, b: seq<int>, k: nat, f: seq<nat>)
    requires |a| > 0 && k < |b| && b[k] == a[0]
    requires Embeds(f, a[1..], b[k + 1..])
    ensures Embeds(PrependShifted(k, f), a, b)
  {
    var g := PrependShifted(k, f);
    forall i | 0 < i < |g|
      ensures g[i] < |b| && b[g[i]] == a[i]
    {
      assert g[i] == f[i - 1] + k + 1;
      assert b[k + 1..][f[i - 1]] == a[1..][i - 1];
    }
  }

  lemma EmbedsDropFirst(a: seq<int>, b: seq<int>, k: int, f: seq<nat>)
    requires |a| > 0 && Embeds(f, a, b) && k == IndexOf(b, a[0])
    ensures 0 <= k <= f[0]
    ensures Embeds(seq(|f| - 1, i requires 0 <= i < |f| - 1 => (f[i + 1] - k - 1) as nat), a[1..], b[k + 1..])
  {
    assert b[f[0]] == a[0];
    forall x | 0 <= x < k
      ensures b[x] != a[0]
    {
      assert b[x] == b[..k][x];
    }
    var g := seq(|f| - 1, i requires 0 <= i < |f| - 1 => (f[i + 1] - k - 1) as nat);
    forall i | 0 <= i < |g|
      ensures g[i] < |b[k + 1..]| && b[k + 1..][g[i]] == a[1..][i]
    {
      assert f[0] < f[i + 1];
    }
    forall i, j | 0 <= i < j < |g|
      ensures g[i] < g[j]
    {
      assert f[i + 1] < f[j + 1];
    }
  }

  /** MonotonicReads holds exactly when, in every serialization, the Read
      values form a subsequence of the Write values, whatever the interleaving. */
  lemma MonotonicReadsCharacterization(h: History, ss: SystemSerialization)
    ensures IsMonotonicReads(h, ss) <==>
      forall i :: 0 <= i < |ss| ==> IsSubsequence(Values(OfKind(ss[i], Read)), Values(OfKind(ss[i], Write)))
  {
    forall i | 0 <= i < |ss| {
      GreedyMatchDecidesSubsequence(Values(OfKind(ss[i], Read)), Values(OfKind(ss[i], Write)));
    }
  }

  // ---------------------------------------------------------------- MonotonicWrites

  /** Every operation of `ops` occurs in `writes`, at first indices that strictly increase. */
  ghost predicate InIncreasingOrder(ops: seq<Operation>, writes: seq<Operation>)
  {
    && (forall k :: 0 <= k < |ops| ==> ops[k] in writes)
    && (forall k, m :: 0 <= k < m < |ops| ==> IndexOf(writes, ops[k]) < IndexOf(writes, ops[m]))
  }

  /** The scan of MonotonicFrom over precomputed indices. */
  predicate IncreasingFrom(idx: seq<int>, i: nat, last: int)
    requires i <= |idx|
    decreases |idx| - i
  {
    i == |idx| || (idx[i] > last && IncreasingFrom(idx, i + 1, idx[i]))
  }

  lemma {:induction false} IncreasingFromDecides(idx: seq<int>, i: nat, last: int)
    requires i <= |idx|
    ensures IncreasingFrom(idx, i, last) <==>
      && (forall k :: i <= k < |idx| ==> idx[k] > last)
      && (forall k, m :: i <= k < m < |idx| ==> idx[k] < idx[m])
    decreases |idx| - i
  {
    if i < |idx| {
      IncreasingFromDecides(idx, i + 1, idx[i]);
    }
  }

  lemma {:induction false} MonotonicFromIsIncreasing(ops: seq<Operation>, writes: seq<Operation>, i: nat, last: int)
    requires i <= |ops|
    ensures MonotonicFrom(ops, writes, i, last) ==
      IncreasingFrom(seq(|ops|, k requires 0 <= k < |ops| => IndexOf(writes, ops[k])), i, last)
    decreases |ops| - i
  {
    if i < |ops| {
      MonotonicFromIsIncreasing(ops, writes, i + 1, IndexOf(writes, ops[i]));
    }
  }

  /** A history passes against a serialization's Writes exactly when all its
      operations occur there in increasing order of first occurrence; an empty
      history always passes. */
  lemma MonotonicHistoryCharacterization(ops: seq<Operation>, writes: seq<Operation>)
    ensures MonotonicFrom(ops, writes, 0, -1) <==> InIncreasingOrder(ops, writes)
  {
    var idx := seq(|ops|, k requires 0 <= k < |ops| => IndexOf(writes, ops[k]));
    MonotonicFromIsIncreasing(ops, writes, 0, -1);
    IncreasingFromDecides(idx, 0, -1);
    forall k | 0 <= k < |ops|
      ensures idx[k] == IndexOf(writes, ops[k]) && (idx[k] > -1 <==> ops[k] in writes)
    {
      var x := IndexOf(writes, ops[k]);
    }
  }

  /** When the Writes are distinct this is the subsequence relation. */
  lemma IncreasingOrderIsSubsequence(ops: seq<Operation>, writes: seq<Operation>)
    requires Distinct(writes)
    ensures InIncreasingOrder(ops, writes) <==> IsSubsequence(ops, writes)
  {
    if InIncreasingOrder(ops, writes) {
      var f := seq(|ops|, k requires 0 <= k < |ops| => IndexOf(writes, ops[k]) as nat);
      assert Embeds(f, ops, writes);
    }
    if IsSubsequence(ops, writes) {
      var f :| Embeds(f, ops, writes);
      forall k | 0 <= k < |ops|
        ensures IndexOf(writes, ops[k]) == f[k]
      {
        var x := IndexOf(writes, ops[k]);
        assert writes[x] == writes[f[k]];
      }
    }
  }

  /** MonotonicWrites: for every serialization and every client history, the
      history's operations occur among that serialization's Writes in
      increasing order. */
  lemma MonotonicWritesCharacterization(h: History, ss: SystemSerialization)
    ensures IsMonotonicWrites(h, ss) <==>
      forall i, c :: 0 <= i < |ss| && 0 <= c < |h| ==> InIncreasingOrder(h[c], OfKind(ss[i], Write))
  {
    forall i, c | 0 <= i < |ss| && 0 <= c < |h| {
      MonotonicHistoryCharacterization(h[c], OfKind(ss[i], Write));
    }
  }

  /** A Read anywhere in the history fails MonotonicWrites as soon as there is a serialization. */
  lemma ReadFailsMonotonicWrites(h: History, ss: SystemSerialization, c: nat, k: nat)
    requires |ss| > 0 && c < |h| && k < |h[c]| && h[c][k].kind == Read
    ensures !IsMonotonicWrites(h, ss)
  {
    MonotonicWritesCharacterization(h, ss);
    var w := OfKind(ss[0], Write);
    forall x | 0 <= x < |w|
      ensures w[x] != h[c][k]
    {
      assert w[x].kind == Write;
    }
  }

  /** In a well-formed system the Writes of serialization i are all client i's
      own, so any other client's non-empty history fails MonotonicWrites. */
  lemma OtherClientFailsMonotonicWrites(h: History, ss: SystemSerialization, i: nat, c: nat)
    requires WellFormedSystem(h, ss)
    requires i < |ss| && c < |h| && c != i && |h[c]| > 0
    ensures !IsMonotonicWrites(h, ss)
  {
    MonotonicWritesCharacterization(h, ss);
    var w := OfKind(ss[i], Write);
    var op := h[c][0];
    forall x | 0 <= x < |w|
      ensures w[x] != op
    {
      assert w[x] in ss[i] && w[x].kind == Write;
      var y :| 0 <= y < |ss[i]| && ss[i][y] == w[x];
      assert w[x] in h[i];
      var z :| 0 <= z < |h[i]| && h[i][z] == w[x];
      assert w[x].clientId == i != op.clientId;
    }
  }
}
