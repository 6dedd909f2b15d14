/**
  Drawing histories and serializations as ASCII timelines: each client's
  operations sorted by start time, each operation drawn as a token at its start
  column with hyphens in between, and every line padded with hyphens to the
  longest one. The round-trip lemmas show that the drawing parses back to the
  operations drawn.
 */
module Diagrams {
  import opened Wrappers
  import opened Types
  import opened Seqs
  import opened Text
  import opened Timeline

  /* ---------------------------------------------------------------------- */
  /* Sorting by start time                                                  */
  /* ---------------------------------------------------------------------- */

  predicate SortedByStart(s: seq<Operation>)
  {
    forall i, j :: 0 <= i < j < |s| ==> s[i].startTime <= s[j].startTime
  }

  /** The entries of `s` that start at time `t`, in their order in `s`. */
  function StartingAt(s: seq<Operation>, t: int): seq<Operation>
  {
    if |s| == 0 then [] else (if s[0].startTime == t then [s[0]] else []) + StartingAt(s[1..], t)
  }

  /** `x` placed before the first entry of `s` that does not start earlier. */
  function Insert(x: Operation, s: seq<Operation>): (r: seq<Operation>)
    ensures multiset(r) == multiset(s) + multiset{x}
  {
    if |s| == 0 || x.startTime <= s[0].startTime then [x] + s
    else
      assert s == [s[0]] + s[1..];
      [s[0]] + Insert(x, s[1..])
  }

  /** No entry of `s` starts before `t`. */
  ghost predicate StartsNoEarlier(s: seq<Operation>, t: int)
  {
    forall k :: 0 <= k < |s| ==> t <= s[k].startTime
  }

  lemma SortedCons(a: Operation, s: seq<Operation>)
    requires SortedByStart(s) && StartsNoEarlier(s, a.startTime)
    ensures SortedByStart([a] + s)
  {
    var r := [a] + s;
    forall i, j | 0 <= i < j < |r|
      ensures r[i].startTime <= r[j].startTime
    {
      assert r[j] == s[j - 1];
      if i > 0 {
        assert r[i] == s[i - 1];
      }
    }
  }

  lemma StartsNoEarlierMembers(s: seq<Operation>, t: int)
    requires forall y :: y in multiset(s) ==> t <= y.startTime
    ensures StartsNoEarlier(s, t)
  {
    forall k | 0 <= k < |s|
      ensures t <= s[k].startTime
    {
      assert s[k] in multiset(s);
    }
  }

  lemma {:induction false} InsertKeepsSorted(x: Operation, s: seq<Operation>)
    requires SortedByStart(s)
    ensures SortedByStart(Insert(x, s))
  {
    if |s| == 0 || x.startTime <= s[0].startTime {
      StartsNoEarlierMembers(s, x.startTime);
      SortedCons(x, s);
    } else {
      var rest := Insert(x, s[1..]);
      InsertKeepsSorted(x, s[1..]);
      assert s == [s[0]] + s[1..];
      forall y: Operation | y in multiset(rest)
        ensures s[0].startTime <= y.startTime
      {
        assert y == x || y in multiset(s[1..]);
      }
      StartsNoEarlierMembers(rest, s[0].startTime);
      SortedCons(s[0], rest);
    }
  }

  /**
    `Array.prototype.sort` with the comparator `a.startTime - b.startTime`. The
    sort is stable, so the result is the one sorted permutation that keeps
    operations with equal start times in their original order (see
    `SortIsStable`).
   */
  function SortByStart(s: seq<Operation>): (r: seq<Operation>)
    ensures SortedByStart(r)
    ensures multiset(r) == multiset(s)
  {
    if |s| == 0 then []
    else
      assert s == [s[0]] + s[1..];
      InsertKeepsSorted(s[0], SortByStart(s[1..]));
      Insert(s[0], SortByStart(s[1..]))
  }

  lemma StartingAtCons(a: Operation, s: seq<Operation>, t: int)
    ensures StartingAt([a] + s, t) == (if a.startTime == t then [a] else []) + StartingAt(s, t)
  {
    assert ([a] + s)[1..] == s;
  }

  lemma {:induction false} InsertKeepsTiesInOrder(x: Operation, s: seq<Operation>, t: int)
    ensures StartingAt(Insert(x, s), t) == (if x.startTime == t then [x] else []) + StartingAt(s, t)
  {
    if |s| == 0 || x.startTime <= s[0].startTime {
      StartingAtCons(x, s, t);
    } else {
      InsertKeepsTiesInOrder(x, s[1..], t);
      StartingAtCons(s[0], Insert(x, s[1..]), t);
      StartingAtCons(s[0], s[1..], t);
      assert [s[0]] + s[1..] == s;
    }
  }

  /** Stability: for every start time, the operations starting then keep their
      relative order. */
  lemma {:induction false} SortIsStable(s: seq<Operation>, t: int)
    ensures StartingAt(SortByStart(s), t) == StartingAt(s, t)
  {
    if |s| > 0 {
      SortIsStable(s[1..], t);
      InsertKeepsTiesInOrder(s[0], SortByStart(s[1..]), t);
    }
  }

  /** `sortOperations`: every client's operations sorted by start time. */
  function SortOperations(opss: seq<seq<Operation>>): (r: seq<seq<Operation>>)
    ensures |r| == |opss|
    ensures forall i :: 0 <= i < |r| ==> SortedByStart(r[i]) && multiset(r[i]) == multiset(opss[i])
    ensures forall i, t :: 0 <= i < |r| ==> StartingAt(r[i], t) == StartingAt(opss[i], t)
  {
    var r := seq(|opss|, i requires 0 <= i < |opss| => SortByStart(opss[i]));
    assert forall i, t :: 0 <= i < |r| ==> StartingAt(r[i], t) == StartingAt(opss[i], t) by {
      forall i, t | 0 <= i < |r|
        ensures StartingAt(r[i], t) == StartingAt(opss[i], t)
      {
        SortIsStable(opss[i], t);
      }
    }
    r
  }

  /* ---------------------------------------------------------------------- */
  /* Drawing one line                                                       */
  /* ---------------------------------------------------------------------- */

  /** The shortest duration a serialization entry may have to be drawn: the
      width of the token `[A:x<-1]` less one, as end times are inclusive. */
  const MinimumOperationDuration: int := |"[A:x<-1]"| - 1

  /** The arrow of a drawn operation: out of the register for a Read, into it
      for anything else. */
  function Arrow(op: Operation): string
  {
    if op.kind == Read then "->" else "<-"
  }

  /** The token an operation is drawn as. */
  function TokenText(op: Operation): string
  {
    "[" + op.name + ":x" + Arrow(op) + IntToString(op.value) + "]"
  }

  /**
    Every operation starts at or after the column where the previous token ends,
    the first one at or after column `pos`. This is what `"-".repeat` needs to
    get a non-negative count at every step.
   */
  ghost predicate Fits(pos: int, ops: seq<Operation>)
  {
    && (|ops| > 0 ==> pos <= ops[0].startTime)
    && forall k :: 0 <= k < |ops| - 1 ==> ops[k].startTime + |TokenText(ops[k])| <= ops[k + 1].startTime
  }

  /** Extends `line` by each operation in turn: hyphens up to its start column,
      then its token. A start column left of the line's end is a range error. */
  function RenderFrom(line: string, ops: seq<Operation>): (r: Result<string, TimelineError>)
    decreases |ops|
    ensures r.Success? ==> |line| <= |r.value| && r.value[..|line|] == line
    ensures r.Failure? ==> r.error.OverlappingOperation? && r.error.operation in ops
  {
    if |ops| == 0 then Success(line)
    else if ops[0].startTime < |line| then Failure(OverlappingOperation(ops[0]))
    else
      var next := line + Repeat('-', ops[0].startTime - |line|) + TokenText(ops[0]);
      var r := RenderFrom(next, ops[1..]);
      assert r.Success? ==> r.value[..|line|] == next[..|line|];
      r
  }

  function RenderLine(ops: seq<Operation>): Result<string, TimelineError>
  {
    RenderFrom("", ops)
  }

  /** Drawing succeeds exactly when no token would start left of the end of the
      one before it. */
  lemma {:induction false} RenderSucceedsIffFits(line: string, ops: seq<Operation>)
    ensures RenderFrom(line, ops).Success? <==> Fits(|line|, ops)
    decreases |ops|
  {
    if |ops| > 0 && ops[0].startTime >= |line| {
      var next := line + Repeat('-', ops[0].startTime - |line|) + TokenText(ops[0]);
      RenderSucceedsIffFits(next, ops[1..]);
      assert Fits(|line|, ops) <==> Fits(|next|, ops[1..]) by {
        assert forall k :: 0 <= k < |ops| - 2 ==> ops[1..][k] == ops[k + 1];
      }
    }
  }

  lemma SliceOfPrefix(r: string, prefix: string, a: int, b: int)
    requires |prefix| <= |r| && r[..|prefix|] == prefix && 0 <= a <= b <= |prefix|
    ensures r[a..b] == prefix[a..b]
  {
    forall k | 0 <= k < b - a
      ensures r[a..b][k] == prefix[a..b][k]
    {
      assert r[a + k] == r[..|prefix|][a + k];
    }
  }

  /** The first token stands where the first operation starts, and drawing
      goes on from the line that ends with it. */
  lemma RenderFirstToken(line: string, ops: seq<Operation>)
    requires |ops| > 0 && RenderFrom(line, ops).Success?
    ensures ops[0].startTime >= |line|
    ensures RenderFrom(line, ops) ==
              RenderFrom(line + Repeat('-', ops[0].startTime - |line|) + TokenText(ops[0]), ops[1..])
    ensures TokenAtColumn(RenderFrom(line, ops).value, ops[0])
  {
    var next := line + Repeat('-', ops[0].startTime - |line|) + TokenText(ops[0]);
    var r := RenderFrom(line, ops).value;
    SliceOfPrefix(r, next, ops[0].startTime, |next|);
    assert next[ops[0].startTime..|next|] == TokenText(ops[0]);
  }

  /** A drawn line holds each operation's token at the operation's start column. */
  lemma {:induction false} RenderPlacesTokens(line: string, ops: seq<Operation>)
    requires RenderFrom(line, ops).Success?
    ensures forall k :: 0 <= k < |ops| ==> TokenAtColumn(RenderFrom(line, ops).value, ops[k])
    decreases |ops|
  {
    if |ops| > 0 {
      var next := line + Repeat('-', ops[0].startTime - |line|) + TokenText(ops[0]);
      RenderFirstToken(line, ops);
      RenderPlacesTokens(next, ops[1..]);
      var r := RenderFrom(line, ops).value;
      forall k | 1 <= k < |ops|
        ensures TokenAtColumn(r, ops[k])
      {
        assert ops[k] == ops[1..][k - 1];
      }
    }
  }

  /** A successful drawing step: the line grows to the end of the first token. */
  lemma RenderSuccessStep(line: string, ops: seq<Operation>)
    requires |ops| > 0 && RenderFrom(line, ops).Success?
    ensures ops[0].startTime >= |line|
    ensures RenderFrom(line, ops) ==
              RenderFrom(line + Repeat('-', ops[0].startTime - |line|) + TokenText(ops[0]), ops[1..])
    ensures |line + Repeat('-', ops[0].startTime - |line|) + TokenText(ops[0])| == ops[0].startTime + |TokenText(ops[0])|
  {
  }

  /** A drawn line ends where its last token ends. */
  lemma {:induction false} RenderEndsWithLastToken(line: string, ops: seq<Operation>)
    requires |ops| > 0 && RenderFrom(line, ops).Success?
    ensures |RenderFrom(line, ops).value| == ops[|ops| - 1].startTime + |TokenText(ops[|ops| - 1])|
    decreases |ops|
  {
    var next := line + Repeat('-', ops[0].startTime - |line|) + TokenText(ops[0]);
    RenderSuccessStep(line, ops);
    if |ops| > 1 {
      RenderEndsWithLastToken(next, ops[1..]);
      assert ops[1..][|ops| - 2] == ops[|ops| - 1];
    }
  }

  /** The token of `op` stands in `line` at `op`'s start column. */
  ghost predicate TokenAtColumn(line: string, op: Operation)
  {
    && 0 <= op.startTime
    && op.startTime + |TokenText(op)| <= |line|
    && line[op.startTime..op.startTime + |TokenText(op)|] == TokenText(op)
  }

  /* ---------------------------------------------------------------------- */
  /* Drawing both diagrams                                                  */
  /* ---------------------------------------------------------------------- */

  ghost predicate LongEnough(op: Operation)
  {
    op.endTime - op.startTime >= MinimumOperationDuration
  }

  /** The first operation too short to be drawn, if any. */
  function FirstTooShort(ops: seq<Operation>): (r: Option<Operation>)
    ensures r.None? <==> forall k :: 0 <= k < |ops| ==> LongEnough(ops[k])
    ensures r.Some? ==> exists k :: 0 <= k < |ops| && ops[k] == r.value && !LongEnough(ops[k]) &&
                          forall j :: 0 <= j < k ==> LongEnough(ops[j])
  {
    if |ops| == 0 then None
    else if ops[0].endTime - ops[0].startTime < MinimumOperationDuration then Some(ops[0])
    else
      var r := FirstTooShort(ops[1..]);
      assert r.Some? ==> exists k :: 0 <= k < |ops| && ops[k] == r.value && !LongEnough(ops[k]) &&
                            forall j :: 0 <= j < k ==> LongEnough(ops[j]) by {
        if r.Some? {
          var k :| 0 <= k < |ops[1..]| && ops[1..][k] == r.value && !LongEnough(ops[1..][k]) &&
                   forall j :: 0 <= j < k ==> LongEnough(ops[1..][j]);
          assert ops[k + 1] == r.value;
          assert forall j :: 1 <= j < k + 1 ==> ops[j] == ops[1..][j - 1];
        }
      }
      r
  }

  /** Line i is the first line of `opss` that cannot be drawn, failing with `e`. */
  ghost predicate FirstRenderFailure(opss: seq<seq<Operation>>, i: int, e: TimelineError)
  {
    && 0 <= i < |opss| && RenderLine(opss[i]) == Failure(e)
    && forall j :: 0 <= j < i ==> RenderLine(opss[j]).Success?
  }

  /** Every client's line drawn, stopping at the first client whose line cannot be. */
  function RenderAll(opss: seq<seq<Operation>>): (r: Result<seq<string>, TimelineError>)
    ensures r.Success? <==> forall i :: 0 <= i < |opss| ==> RenderLine(opss[i]).Success?
    ensures r.Success? ==> |r.value| == |opss| && forall i :: 0 <= i < |opss| ==> r.value[i] == RenderLine(opss[i]).value
    ensures r.Failure? ==> exists i :: FirstRenderFailure(opss, i, r.error)
  {
    if |opss| == 0 then Success([])
    else match RenderLine(opss[0])
      case Failure(e) =>
        assert FirstRenderFailure(opss, 0, e);
        Failure(e)
      case Success(line) =>
        match RenderAll(opss[1..])
        case Failure(e) =>
          assert exists i :: FirstRenderFailure(opss, i, e) by {
            var i :| FirstRenderFailure(opss[1..], i, e);
            assert opss[i + 1] == opss[1..][i];
            assert forall j :: 1 <= j < i + 1 ==> opss[j] == opss[1..][j - 1];
            assert FirstRenderFailure(opss, i + 1, e);
          }
          Failure(e)
        case Success(rest) =>
          assert forall i :: 1 <= i < |opss| ==> opss[i] == opss[1..][i - 1];
          Success([line] + rest)
  }

  /** The length of the longest line, 0 when there is none. */
  function Longest(lines: seq<string>): (n: nat)
    ensures forall i :: 0 <= i < |lines| ==> |lines[i]| <= n
    ensures |lines| > 0 ==> exists i :: 0 <= i < |lines| && |lines[i]| == n
    ensures |lines| == 0 ==> n == 0
  {
    if |lines| == 0 then 0
    else
      var m := Longest(lines[1..]);
      if |lines[0]| >= m then |lines[0]|
      else
        assert exists i :: 0 <= i < |lines| && |lines[i]| == m by {
          var i :| 0 <= i < |lines[1..]| && |lines[1..][i]| == m;
          assert lines[i + 1] == lines[1..][i];
        }
        m
  }

  /** Every line extended with hyphens to length `n`. */
  function PadTo(lines: seq<string>, n: nat): (r: seq<string>)
    requires forall i :: 0 <= i < |lines| ==> |lines[i]| <= n
    ensures |r| == |lines|
    ensures forall i :: 0 <= i < |r| ==> |r[i]| == n && r[i][..|lines[i]|] == lines[i]
    ensures forall i, p :: 0 <= i < |r| && |lines[i]| <= p < n ==> r[i][p] == '-'
  {
    seq(|lines|, i requires 0 <= i < |lines| => lines[i] + Repeat('-', n - |lines[i]|))
  }

  /** The output of `generateAsciiDiagrams`: one line per client, joined with line feeds. */
  datatype AsciiDiagrams = AsciiDiagrams(historyStr: string, systemSerializationStr: string)

  /** `line` is `drawn` followed by hyphens up to length `n`. */
  ghost predicate PaddedFrom(line: string, drawn: string, n: int)
  {
    && |drawn| <= n == |line|
    && line[..|drawn|] == drawn
    && forall p :: |drawn| <= p < n ==> line[p] == '-'
  }

  /**
    The padded lines of both diagrams. The serialization entries are checked
    for their duration first, in client order; then the history lines and the
    serialization lines are drawn; then every line is padded to the longest.
   */
  function DiagramLines(h: History, ss: SystemSerialization): (r: Result<(seq<string>, seq<string>), TimelineError>)
    ensures r.Failure? && r.error.OperationTooShort? ==>
              r.error.operation in Flatten(ss) && !LongEnough(r.error.operation)
    ensures r.Success? <==>
              && (forall k :: 0 <= k < |Flatten(ss)| ==> LongEnough(Flatten(ss)[k]))
              && (forall i :: 0 <= i < |h| ==> RenderLine(h[i]).Success?)
              && (forall i :: 0 <= i < |ss| ==> RenderLine(ss[i]).Success?)
    ensures r.Success? ==> |r.value.0| == |h| && |r.value.1| == |ss|
    ensures FirstTooShort(Flatten(ss)).Some? ==> r == Failure(OperationTooShort(FirstTooShort(Flatten(ss)).value))
    ensures r.Failure? && FirstTooShort(Flatten(ss)).None? ==>
              || (exists i :: FirstRenderFailure(h, i, r.error))
              || ((forall i :: 0 <= i < |h| ==> RenderLine(h[i]).Success?) && exists i :: FirstRenderFailure(ss, i, r.error))
  {
    match FirstTooShort(Flatten(ss))
    case Some(op) => Failure(OperationTooShort(op))
    case None =>
      match RenderAll(h)
      case Failure(e) => Failure(e)
      case Success(historyLines) =>
        match RenderAll(ss)
        case Failure(e) => Failure(e)
        case Success(serializationLines) =>
          var n := Longest(historyLines + serializationLines);
          LongestBoundsBoth(historyLines, serializationLines);
          Success((PadTo(historyLines, n), PadTo(serializationLines, n)))
  }

  /** The longest of two groups of lines is at least as long as any line of either. */
  lemma LongestBoundsBoth(a: seq<string>, b: seq<string>)
    ensures forall i :: 0 <= i < |a| ==> |a[i]| <= Longest(a + b)
    ensures forall i :: 0 <= i < |b| ==> |b[i]| <= Longest(a + b)
  {
    assert forall i :: 0 <= i < |a| ==> a[i] == (a + b)[i];
    assert forall i :: 0 <= i < |b| ==> b[i] == (a + b)[|a| + i];
  }

  /** Every line of both diagrams is its client's drawing followed by hyphens,
      up to the length of the longest drawing. */
  lemma DiagramLinesArePadded(h: History, ss: SystemSerialization)
    requires DiagramLines(h, ss).Success?
    ensures forall i :: 0 <= i < |h| ==>
              RenderLine(h[i]).Success? &&
              PaddedFrom(DiagramLines(h, ss).value.0[i], RenderLine(h[i]).value, Longest(RenderAll(h).value + RenderAll(ss).value))
    ensures forall i :: 0 <= i < |ss| ==>
              RenderLine(ss[i]).Success? &&
              PaddedFrom(DiagramLines(h, ss).value.1[i], RenderLine(ss[i]).value, Longest(RenderAll(h).value + RenderAll(ss).value))
  {
    var hl := RenderAll(h).value;
    var sl := RenderAll(ss).value;
    var n := Longest(hl + sl);
    assert DiagramLines(h, ss).value == (PadTo(hl, n), PadTo(sl, n));
    LongestBoundsBoth(hl, sl);
    forall i | 0 <= i < |h|
      ensures PaddedFrom(PadTo(hl, n)[i], hl[i], n)
    {
      PadToLine(hl, n, i);
    }
    forall i | 0 <= i < |ss|
      ensures PaddedFrom(PadTo(sl, n)[i], sl[i], n)
    {
      PadToLine(sl, n, i);
    }
  }

  lemma PadToLine(lines: seq<string>, n: nat, i: int)
    requires 0 <= i < |lines| && forall j :: 0 <= j < |lines| ==> |lines[j]| <= n
    ensures PaddedFrom(PadTo(lines, n)[i], lines[i], n)
  {
  }

  /** `generateAsciiDiagrams`: both diagrams as line-feed-separated strings. */
  function GenerateAsciiDiagrams(h: History, ss: SystemSerialization): (r: Result<AsciiDiagrams, TimelineError>)
    ensures r.Success? <==> DiagramLines(h, ss).Success?
    ensures r.Failure? ==> r.error == DiagramLines(h, ss).error
    ensures r.Success? ==>
              && r.value.historyStr == JoinWith(DiagramLines(h, ss).value.0, "\n")
              && r.value.systemSerializationStr == JoinWith(DiagramLines(h, ss).value.1, "\n")
  {
    match DiagramLines(h, ss)
    case Failure(e) => Failure(e)
    case Success(lines) => Success(AsciiDiagrams(JoinWith(lines.0, "\n"), JoinWith(lines.1, "\n")))
  }

  /** Line i is the first line of `opss` whose operations do not fit, and `op` is one of them. */
  ghost predicate FirstMisfit(opss: seq<seq<Operation>>, i: int, op: Operation)
  {
    && 0 <= i < |opss| && !Fits(0, opss[i]) && op in opss[i]
    && forall j :: 0 <= j < i ==> Fits(0, opss[j])
  }

  /** Every operation lasts long enough to be drawn. */
  ghost predicate AllLongEnough(ops: seq<Operation>)
  {
    forall k :: 0 <= k < |ops| ==> LongEnough(ops[k])
  }

  /** On every line the operations fit from column 0. */
  ghost predicate AllFit(opss: seq<seq<Operation>>)
  {
    forall i :: 0 <= i < |opss| ==> Fits(0, opss[i])
  }

  /** A line is drawn exactly when its operations fit from column 0. */
  lemma DrawnIffFits(opss: seq<seq<Operation>>)
    ensures forall i :: 0 <= i < |opss| ==> (RenderLine(opss[i]).Success? <==> Fits(0, opss[i]))
    ensures AllFit(opss) <==> forall i :: 0 <= i < |opss| ==> RenderLine(opss[i]).Success?
  {
    forall i | 0 <= i < |opss|
      ensures RenderLine(opss[i]).Success? <==> Fits(0, opss[i])
    {
      RenderSucceedsIffFits("", opss[i]);
    }
  }

  /** The first line that cannot be drawn is the first that does not fit, and
      the error names one of its operations. */
  lemma FirstRenderFailureMisfits(opss: seq<seq<Operation>>, i: int, e: TimelineError)
    requires FirstRenderFailure(opss, i, e)
    ensures e.OverlappingOperation? && FirstMisfit(opss, i, e.operation)
  {
    DrawnIffFits(opss);
  }

  /** Drawing both diagrams succeeds exactly when every serialization entry
      lasts long enough and, on every line of both, each token starts at or
      after the end of the one before. */
  lemma AsciiDiagramsSucceed(h: History, ss: SystemSerialization)
    ensures GenerateAsciiDiagrams(h, ss).Success? <==> AllLongEnough(Flatten(ss)) && AllFit(h) && AllFit(ss)
  {
    DrawnIffFits(h);
    DrawnIffFits(ss);
  }

  /** The error reported: the first serialization entry that is too short;
      failing that, an operation of the first history line that does not fit;
      failing that, one of the first serialization line that does not fit. */
  lemma AsciiDiagramsError(h: History, ss: SystemSerialization)
    ensures var r := GenerateAsciiDiagrams(h, ss);
            r.Failure? ==>
              || (FirstTooShort(Flatten(ss)).Some? && r.error == OperationTooShort(FirstTooShort(Flatten(ss)).value))
              || (&& FirstTooShort(Flatten(ss)).None? && r.error.OverlappingOperation?
                  && exists i :: FirstMisfit(h, i, r.error.operation))
              || (&& FirstTooShort(Flatten(ss)).None? && r.error.OverlappingOperation?
                  && AllFit(h) && exists i :: FirstMisfit(ss, i, r.error.operation))
  {
    var r := DiagramLines(h, ss);
    if r.Failure? && FirstTooShort(Flatten(ss)).None? {
      if exists i :: FirstRenderFailure(h, i, r.error) {
        var i :| FirstRenderFailure(h, i, r.error);
        FirstRenderFailureMisfits(h, i, r.error);
      } else {
        DrawnIffFits(h);
        var i :| FirstRenderFailure(ss, i, r.error);
        FirstRenderFailureMisfits(ss, i, r.error);
      }
    }
  }

  /** No operation name of any line holds a line feed. */
  ghost predicate LineFeedFreeNames(opss: seq<seq<Operation>>)
  {
    forall c, k :: 0 <= c < |opss| && 0 <= k < |opss[c]| ==> '\n' !in opss[c][k].name
  }

  /** A token holds a line feed only if the operation's name does. */
  lemma TokenHasNoLineFeed(op: Operation)
    requires '\n' !in op.name
    ensures '\n' !in TokenText(op)
  {
    var v := IntToString(op.value);
    var digits := NatToString(if op.value < 0 then -op.value else op.value);
    assert '\n' !in digits by {
      forall k | 0 <= k < |digits|
        ensures digits[k] != '\n'
      {
        assert IsDigit(digits[k]);
      }
    }
    assert v == digits || v == "-" + digits;
  }

  /** Drawing adds no line feed to a line that has none. */
  lemma {:induction false} RenderHasNoLineFeed(line: string, ops: seq<Operation>)
    requires '\n' !in line && RenderFrom(line, ops).Success?
    requires forall k :: 0 <= k < |ops| ==> '\n' !in ops[k].name
    ensures '\n' !in RenderFrom(line, ops).value
    decreases |ops|
  {
    if |ops| > 0 {
      var next := line + Repeat('-', ops[0].startTime - |line|) + TokenText(ops[0]);
      TokenHasNoLineFeed(ops[0]);
      RenderHasNoLineFeed(next, ops[1..]);
    }
  }

  /** Padding a line-feed-free drawing with hyphens keeps it free of line feeds. */
  lemma PaddedHasNoLineFeed(line: string, drawn: string, n: int)
    requires PaddedFrom(line, drawn, n) && '\n' !in drawn
    ensures '\n' !in line
  {
    forall p | 0 <= p < |line|
      ensures line[p] != '\n'
    {
      if p < |drawn| {
        assert line[p] == line[..|drawn|][p];
      }
    }
  }

  /** Splitting the joined padded lines at line feeds gives them back. */
  lemma SplitPaddedLines(lines: seq<string>, drawn: seq<string>, n: int)
    requires |lines| == |drawn| > 0
    requires forall i :: 0 <= i < |lines| ==> PaddedFrom(lines[i], drawn[i], n) && '\n' !in drawn[i]
    ensures Split(JoinWith(lines, "\n"), '\n') == lines
  {
    forall i | 0 <= i < |lines|
      ensures '\n' !in lines[i]
    {
      PaddedHasNoLineFeed(lines[i], drawn[i], n);
    }
    SplitJoin(lines, '\n');
  }

  /** Split at line feeds, `str` gives one line per client of `opss`, each
      that client's drawing padded with hyphens to length `n`; with no client
      it is empty. */
  ghost predicate ReadsBackAs(str: string, opss: seq<seq<Operation>>, n: int)
  {
    && (|opss| == 0 ==> str == "")
    && (|opss| > 0 ==>
          && |Split(str, '\n')| == |opss|
          && forall i :: 0 <= i < |opss| ==>
               RenderLine(opss[i]).Success? && PaddedFrom(Split(str, '\n')[i], RenderLine(opss[i]).value, n))
  }

  lemma JoinedDiagramReadsBack(lines: seq<string>, opss: seq<seq<Operation>>, n: int)
    requires |lines| == |opss| && LineFeedFreeNames(opss)
    requires forall i :: 0 <= i < |opss| ==>
               RenderLine(opss[i]).Success? && PaddedFrom(lines[i], RenderLine(opss[i]).value, n)
    ensures ReadsBackAs(JoinWith(lines, "\n"), opss, n)
  {
    if |opss| > 0 {
      var drawn := seq(|opss|, i requires 0 <= i < |opss| => RenderLine(opss[i]).value);
      forall i | 0 <= i < |opss|
        ensures '\n' !in drawn[i]
      {
        RenderHasNoLineFeed("", opss[i]);
      }
      SplitPaddedLines(lines, drawn, n);
    }
  }

  /**
    Reading the diagrams back line by line: when no operation name holds a line
    feed, splitting each string at line feeds gives one line per client, which
    is that client's drawing padded with hyphens to the longest drawing of both
    diagrams. With no client, the string is empty.
   */
  lemma AsciiDiagramsSplitBack(h: History, ss: SystemSerialization)
    requires GenerateAsciiDiagrams(h, ss).Success?
    requires LineFeedFreeNames(h) && LineFeedFreeNames(ss)
    ensures var d, n := GenerateAsciiDiagrams(h, ss).value, Longest(RenderAll(h).value + RenderAll(ss).value);
            ReadsBackAs(d.historyStr, h, n) && ReadsBackAs(d.systemSerializationStr, ss, n)
  {
    var lines := DiagramLines(h, ss).value;
    var n := Longest(RenderAll(h).value + RenderAll(ss).value);
    DiagramLinesArePadded(h, ss);
    JoinedDiagramReadsBack(lines.0, h, n);
    JoinedDiagramReadsBack(lines.1, ss, n);
  }

  /* ---------------------------------------------------------------------- */
  /* Round trip                                                             */
  /* ---------------------------------------------------------------------- */

  /** An operation the token pattern can express: a one-letter upper-case name
      and a one-digit value. */
  ghost predicate Drawable(op: Operation)
  {
    |op.name| == 1 && IsUpper(op.name[0]) && 0 <= op.value < 10
  }

  ghost predicate AllDrawable(ops: seq<Operation>)
  {
    forall k :: 0 <= k < |ops| ==> Drawable(ops[k])
  }

  /** What drawing and parsing back keeps of an operation: kind (Read or not),
      name, value and start; the owner becomes the line's client and the end the
      last column of the token. */
  function Normalized(clientId: int, op: Operation): Operation
  {
    Operation(if op.kind == Read then Read else Write, true, clientId, op.name, op.value, op.startTime, op.startTime + 7)
  }

  function NormalizedAll(clientId: int, ops: seq<Operation>): (r: seq<Operation>)
    ensures |r| == |ops| && forall k :: 0 <= k < |ops| ==> r[k] == Normalized(clientId, ops[k])
  {
    seq(|ops|, k requires 0 <= k < |ops| => Normalized(clientId, ops[k]))
  }

  lemma DrawableToken(op: Operation)
    requires Drawable(op)
    ensures TokenText(op) == ['[', op.name[0], ':', 'x', Arrow(op)[0], Arrow(op)[1], DigitChar(op.value), ']']
  {
    assert IntToString(op.value) == [DigitChar(op.value)];
  }

  /** No character of a drawable token is whitespace. */
  lemma DrawableTokenHasNoSpace(op: Operation)
    requires Drawable(op)
    ensures |TokenText(op)| == 8
    ensures forall k :: 0 <= k < 8 ==> !IsJsSpace(TokenText(op)[k])
  {
    DrawableToken(op);
  }

  /** Operations that fit from `pos` on still fit, after the first, from the
      end of its token on. */
  lemma FitsRest(pos: int, ops: seq<Operation>)
    requires |ops| > 0 && Fits(pos, ops)
    ensures Fits(ops[0].startTime + |TokenText(ops[0])|, ops[1..])
  {
    assert forall k :: 0 <= k < |ops| - 2 ==> ops[1..][k] == ops[k + 1];
  }

  /** The part of a line from column `pos` on, for operations that fit. */
  function Tail(pos: int, ops: seq<Operation>): string
    decreases |ops|
  {
    if |ops| == 0 then ""
    else
      var gap := if pos <= ops[0].startTime then ops[0].startTime - pos else 0;
      Repeat('-', gap) + TokenText(ops[0]) + Tail(ops[0].startTime + |TokenText(ops[0])|, ops[1..])
  }

  lemma Regroup(a: string, b: string, c: string, d: string)
    ensures a + (b + c + d) == (a + b + c) + d
    ensures (a + b + c) + d == a + (b + (c + d))
  {
  }

  /** One drawing step, for an operation that starts at or after the line's end. */
  lemma RenderStep(line: string, ops: seq<Operation>)
    requires |ops| > 0 && |line| <= ops[0].startTime
    ensures RenderFrom(line, ops) == RenderFrom(line + Repeat('-', ops[0].startTime - |line|) + TokenText(ops[0]), ops[1..])
  {
  }

  lemma {:induction false} RenderIsTail(line: string, ops: seq<Operation>)
    requires Fits(|line|, ops)
    ensures RenderFrom(line, ops) == Success(line + Tail(|line|, ops))
    decreases |ops|
  {
    if |ops| > 0 {
      var op := ops[0];
      var dashes := Repeat('-', op.startTime - |line|);
      var next := line + dashes + TokenText(op);
      FitsRest(|line|, ops);
      RenderStep(line, ops);
      RenderIsTail(next, ops[1..]);
      Regroup(line, dashes, TokenText(op), Tail(|next|, ops[1..]));
    } else {
      assert line + Tail(|line|, ops) == line;
    }
  }

  lemma {:induction false} TailHasNoSpace(pos: int, ops: seq<Operation>)
    requires AllDrawable(ops)
    ensures forall k :: 0 <= k < |Tail(pos, ops)| ==> !IsJsSpace(Tail(pos, ops)[k])
    decreases |ops|
  {
    if |ops| > 0 {
      var next := ops[0].startTime + |TokenText(ops[0])|;
      var gap := if pos <= ops[0].startTime then ops[0].startTime - pos else 0;
      var dashes := Repeat('-', gap);
      assert AllDrawable(ops[1..]);
      TailHasNoSpace(next, ops[1..]);
      DrawableTokenHasNoSpace(ops[0]);
      var t := Tail(pos, ops);
      var u := Tail(next, ops[1..]);
      assert t == dashes + TokenText(ops[0]) + u;
      forall k | 0 <= k < |t|
        ensures !IsJsSpace(t[k])
      {
        if k < |dashes| {
          assert t[k] == '-';
        } else if k < |dashes| + 8 {
          assert t[k] == TokenText(ops[0])[k - |dashes|];
        } else {
          assert t[k] == u[k - |dashes| - 8];
        }
      }
    }
  }

  /** The scan passes over characters that cannot open a token. */
  lemma {:induction false} ScanSkipsUnbracketed(s: string, n: nat, col: int, clientId: int)
    requires n <= |s| && forall j :: 0 <= j < n ==> s[j] != '['
    ensures ScanFrom(s, col, clientId) == ScanFrom(s[n..], col + n, clientId)
  {
    if n > 0 {
      assert MatchToken(s).None?;
      assert ScanFrom(s, col, clientId) == ScanFrom(s[1..], col + 1, clientId);
      ScanSkipsUnbracketed(s[1..], n - 1, col + 1, clientId);
      assert s[1..][n - 1..] == s[n..];
    }
  }

  /** A token at the front of `s` becomes the first scanned operation. */
  lemma ScanTakesToken(s: string, col: int, clientId: int)
    requires |s| > 0 && MatchToken(s).Some?
    ensures ScanFrom(s, col, clientId) ==
              [TokenOperation(MatchToken(s).value, col, clientId)] +
              ScanFrom(s[MatchToken(s).value.length..], col + MatchToken(s).value.length, clientId)
  {
  }

  /** A drawable operation's token is spelled the way the pattern wants. */
  lemma DrawnTokenMatches(op: Operation, rest: string)
    requires Drawable(op)
    ensures MatchToken(TokenText(op) + rest) == Some(Token(op.name[0], op.kind == Read, op.value, 8))
  {
    var s := TokenText(op) + rest;
    var t := Token(op.name[0], op.kind == Read, op.value, 8);
    DrawableToken(op);
    assert s[4..6] == Arrow(op);
    assert SpellsToken(s, t);
    MatchTokenSpellsToken(s, t);
  }

  /** A string that opens with a drawable operation's token: the scan yields
      that operation, normalized, and goes on after the token. */
  lemma ScanTakesDrawn(s: string, op: Operation, rest: string, clientId: int)
    requires Drawable(op) && |s| >= 8 && s[8..] == rest
    requires MatchToken(s) == Some(Token(op.name[0], op.kind == Read, op.value, 8))
    ensures ScanFrom(s, op.startTime, clientId) ==
              [Normalized(clientId, op)] + ScanFrom(rest, op.startTime + 8, clientId)
  {
    ScanTakesToken(s, op.startTime, clientId);
    assert [op.name[0]] == op.name;
  }

  lemma ScanReadsToken(op: Operation, rest: string, clientId: int)
    requires Drawable(op)
    ensures ScanFrom(TokenText(op) + rest, op.startTime, clientId) ==
              [Normalized(clientId, op)] + ScanFrom(rest, op.startTime + 8, clientId)
  {
    var s := TokenText(op) + rest;
    DrawnTokenMatches(op, rest);
    DrawableTokenHasNoSpace(op);
    assert s[8..] == rest;
    ScanTakesDrawn(s, op, rest, clientId);
  }

  /** A tail padded with `m` hyphens, nested to the right: hyphens up to the
      first token, the token, then the rest. */
  function Padded(pos: int, ops: seq<Operation>, m: nat): string
    decreases |ops|
  {
    if |ops| == 0 then Repeat('-', m)
    else
      var gap := if pos <= ops[0].startTime then ops[0].startTime - pos else 0;
      Repeat('-', gap) + (TokenText(ops[0]) + Padded(ops[0].startTime + |TokenText(ops[0])|, ops[1..], m))
  }

  lemma {:induction false} TailThenPadding(pos: int, ops: seq<Operation>, m: nat)
    ensures Tail(pos, ops) + Repeat('-', m) == Padded(pos, ops, m)
    decreases |ops|
  {
    if |ops| > 0 {
      var next := ops[0].startTime + |TokenText(ops[0])|;
      var gap := if pos <= ops[0].startTime then ops[0].startTime - pos else 0;
      var d, t, rest := Repeat('-', gap), TokenText(ops[0]), Tail(next, ops[1..]);
      assert Tail(pos, ops) == d + t + rest;
      assert Padded(pos, ops, m) == d + (t + Padded(next, ops[1..], m));
      TailThenPadding(next, ops[1..], m);
      Regroup(d, t, rest, Repeat('-', m));
    } else {
      assert Tail(pos, ops) + Repeat('-', m) == Repeat('-', m);
    }
  }

  /** Hyphens in front of `x` are skipped by the scan. */
  lemma ScanSkipsDashes(n: nat, x: string, col: int, clientId: int)
    ensures ScanFrom(Repeat('-', n) + x, col, clientId) == ScanFrom(x, col + n, clientId)
  {
    var s := Repeat('-', n) + x;
    forall j | 0 <= j < n
      ensures s[j] != '['
    {
      assert s[j] == '-';
    }
    ScanSkipsUnbracketed(s, n, col, clientId);
    assert s[n..] == x;
  }

  /** Hyphens, then a drawable token: the scan yields the token's operation first. */
  lemma ScanReadsDashesThenToken(n: nat, op: Operation, rest: string, col: int, clientId: int)
    requires Drawable(op) && col + n == op.startTime
    ensures ScanFrom(Repeat('-', n) + (TokenText(op) + rest), col, clientId) ==
              [Normalized(clientId, op)] + ScanFrom(rest, op.startTime + 8, clientId)
  {
    ScanSkipsDashes(n, TokenText(op) + rest, col, clientId);
    ScanReadsToken(op, rest, clientId);
  }

  lemma AllDrawableRest(ops: seq<Operation>)
    requires |ops| > 0 && AllDrawable(ops)
    ensures Drawable(ops[0]) && AllDrawable(ops[1..])
  {
    assert forall k :: 0 <= k < |ops| - 1 ==> ops[1..][k] == ops[k + 1];
  }

  lemma NormalizedAllCons(clientId: int, ops: seq<Operation>)
    requires |ops| > 0
    ensures NormalizedAll(clientId, ops) == [Normalized(clientId, ops[0])] + NormalizedAll(clientId, ops[1..])
  {
  }

  lemma {:induction false} ScanReadsPadded(pos: int, ops: seq<Operation>, m: nat, clientId: int)
    requires Fits(pos, ops) && AllDrawable(ops)
    ensures ScanFrom(Padded(pos, ops, m), pos, clientId) == NormalizedAll(clientId, ops)
    decreases |ops|
  {
    if |ops| == 0 {
      var line := Padded(pos, ops, m);
      ScanSkipsUnbracketed(line, m, pos, clientId);
      assert line[m..] == [];
    } else {
      var op := ops[0];
      AllDrawableRest(ops);
      DrawableTokenHasNoSpace(op);
      FitsRest(pos, ops);
      ScanReadsDashesThenToken(op.startTime - pos, op, Padded(op.startTime + 8, ops[1..], m), pos, clientId);
      ScanReadsPadded(op.startTime + 8, ops[1..], m, clientId);
      NormalizedAllCons(clientId, ops);
    }
  }

  /** One line round trip: a line drawn from operations that fit and that the
      token pattern can express, padded with any number of hyphens, parses back
      to the same operations, normalized. */
  lemma LineRoundTrip(clientId: int, ops: seq<Operation>, m: nat)
    requires AllDrawable(ops) && Fits(0, ops)
    ensures RenderLine(ops).Success?
    ensures ParseLine(clientId, RenderLine(ops).value + Repeat('-', m)) == NormalizedAll(clientId, ops)
  {
    RenderIsTail("", ops);
    assert "" + Tail(0, ops) == Tail(0, ops);
    TailThenPadding(0, ops, m);
    ScanReadsPadded(0, ops, m, clientId);
  }
}
