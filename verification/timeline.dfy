/**
  The ASCII timeline format: one line per client, each operation written as a
  bracketed token such as `[A:x<-1]` (a write of 1) or `[B:x->1]` (a read of 1)
  at the column where it starts, with hyphens in between. This module holds the
  token grammar, the scanner that turns a line into operations, the splitting
  of a diagram into equal-length lines, and the two entry points that build a
  history and a system serialization from diagrams.
 */
module Timeline {
  import opened Wrappers
  import opened Types
  import opened Text

  /** Every way building a history, a serialization or a diagram can fail. */
  datatype TimelineError =
    | LineLengthMismatch(line: nat, length: nat, expected: nat)
    | MissingClientHistory(clientId: nat)
    | OperationTooShort(operation: Operation)
    | OverlappingOperation(operation: Operation)

  predicate IsUpper(c: char)
  {
    'A' <= c <= 'Z'
  }

  predicate IsLower(c: char)
  {
    'a' <= c <= 'z'
  }

  /** One match of the operation pattern: the operation name, whether the arrow
      points out of the register (a read), the digit, and how many characters the
      match spans. */
  datatype Token = Token(name: char, isRead: bool, digit: nat, length: nat)

  /** Number of whitespace characters at the front of `s`. */
  function LeadingSpaces(s: string): nat
  {
    if |s| > 0 && IsJsSpace(s[0]) then 1 + LeadingSpaces(s[1..]) else 0
  }

  /** The count is the length of the longest all-whitespace prefix. */
  lemma {:induction false} LeadingSpacesSpec(s: string)
    ensures LeadingSpaces(s) <= |s|
    ensures forall j :: 0 <= j < LeadingSpaces(s) ==> IsJsSpace(s[j])
    ensures LeadingSpaces(s) < |s| ==> !IsJsSpace(s[LeadingSpaces(s)])
  {
    if |s| > 0 && IsJsSpace(s[0]) {
      LeadingSpacesSpec(s[1..]);
    }
  }

  /**
    The pattern `\[([A-Z]):([a-z])(<-|->)\s*(\d)\]` anchored at the front of `s`.
    Whitespace and digits are disjoint, so the greedy `\s*` never has to give a
    character back: the match, when there is one, is unique.
   */
  function MatchToken(s: string): Option<Token>
  {
    if |s| < 8 || s[0] != '[' || !IsUpper(s[1]) || s[2] != ':' || !IsLower(s[3]) then None
    else if !((s[4] == '<' && s[5] == '-') || (s[4] == '-' && s[5] == '>')) then None
    else
      var k := LeadingSpaces(s[6..]);
      if 6 + k + 1 < |s| && IsDigit(s[6 + k]) && s[7 + k] == ']' then
        Some(Token(s[1], s[4] == '-', DigitValue(s[6 + k]), 8 + k))
      else None
  }

  /** `s` begins with the spelling of token `t`: bracket, upper-case name, colon,
      lower-case register, arrow, whitespace, digit, bracket. */
  ghost predicate SpellsToken(s: string, t: Token)
  {
    && 8 <= t.length <= |s|
    && s[0] == '[' && s[1] == t.name && IsUpper(t.name) && s[2] == ':' && IsLower(s[3])
    && s[4..6] == (if t.isRead then "->" else "<-")
    && (forall j :: 6 <= j < t.length - 2 ==> IsJsSpace(s[j]))
    && IsDigit(s[t.length - 2]) && DigitValue(s[t.length - 2]) == t.digit
    && s[t.length - 1] == ']'
  }

  /** The matcher finds exactly the tokens the pattern describes. */
  lemma MatchTokenSpellsToken(s: string, t: Token)
    ensures MatchToken(s) == Some(t) <==> SpellsToken(s, t)
  {
    if |s| >= 6 {
      LeadingSpacesSpec(s[6..]);
    }
    if SpellsToken(s, t) {
      var k := LeadingSpaces(s[6..]);
      assert s[6..][t.length - 8] == s[t.length - 2];
      assert k == t.length - 8;
    }
  }

  /** A match spans at least eight characters of `s`, starts with the only `[`
      it contains, and carries an upper-case name and a one-digit value. */
  lemma MatchTokenShape(s: string)
    ensures MatchToken(s).Some? ==>
              && 8 <= MatchToken(s).value.length <= |s| && s[0] == '['
              && IsUpper(MatchToken(s).value.name) && MatchToken(s).value.digit < 10
              && forall j :: 0 < j < MatchToken(s).value.length ==> s[j] != '['
  {
    if MatchToken(s).Some? {
      var t := MatchToken(s).value;
      LeadingSpacesSpec(s[6..]);
      forall j | 0 < j < t.length
        ensures s[j] != '['
      {
        if 6 <= j < t.length - 2 {
          assert s[j] == s[6..][j - 6];
        }
      }
    }
  }

  /** The operation a token found at column `col` of client `clientId`'s line
      stands for; its end time is inclusive. */
  function TokenOperation(t: Token, col: int, clientId: int): Operation
  {
    Operation(if t.isRead then Read else Write, true, clientId, [t.name], t.digit, col, col + t.length - 1)
  }

  /** What every parsed operation looks like. */
  ghost predicate ParsedShape(op: Operation, clientId: int)
  {
    && op.kind != Visibility && op.isHistory && op.clientId == clientId
    && |op.name| == 1 && IsUpper(op.name[0]) && 0 <= op.value < 10
  }

  /**
    Successive non-overlapping matches of the pattern in `s`, whose first
    character sits at column `col`: after a match the search resumes right
    after it, after a miss one character further on.
   */
  function ScanFrom(s: string, col: int, clientId: int): seq<Operation>
    decreases |s|
  {
    if |s| == 0 then []
    else match MatchToken(s)
      case Some(t) => [TokenOperation(t, col, clientId)] + ScanFrom(s[t.length..], col + t.length, clientId)
      case None => ScanFrom(s[1..], col + 1, clientId)
  }

  /** Scanned operations are Reads and Writes of the line's client with a
      one-letter name and a one-digit value, each spanning at least a token's
      width inside the scanned text, in strictly increasing, disjoint order. */
  lemma {:induction false} ScanShape(s: string, col: int, clientId: int)
    ensures forall k :: 0 <= k < |ScanFrom(s, col, clientId)| ==> ParsedShape(ScanFrom(s, col, clientId)[k], clientId)
    ensures forall k :: 0 <= k < |ScanFrom(s, col, clientId)| ==>
              col <= ScanFrom(s, col, clientId)[k].startTime &&
              ScanFrom(s, col, clientId)[k].startTime + 7 <= ScanFrom(s, col, clientId)[k].endTime < col + |s|
    ensures forall k :: 0 <= k < |ScanFrom(s, col, clientId)| - 1 ==>
              ScanFrom(s, col, clientId)[k].endTime < ScanFrom(s, col, clientId)[k + 1].startTime
    decreases |s|
  {
    if |s| > 0 {
      MatchTokenShape(s);
      match MatchToken(s)
      case Some(t) =>
        ScanShape(s[t.length..], col + t.length, clientId);
      case None =>
        ScanShape(s[1..], col + 1, clientId);
    }
  }

  /** Client `clientId`'s operations, read from its line of the diagram. */
  function ParseLine(clientId: int, line: string): (r: seq<Operation>)
    ensures forall k :: 0 <= k < |r| ==> ParsedShape(r[k], clientId)
    ensures forall k :: 0 <= k < |r| ==> 0 <= r[k].startTime && r[k].startTime + 7 <= r[k].endTime < |line|
    ensures forall k :: 0 <= k < |r| - 1 ==> r[k].endTime < r[k + 1].startTime
  {
    ScanShape(line, 0, clientId);
    ScanFrom(line, 0, clientId)
  }

  /** `op` is the operation of the token that starts at its own column of `s`
      (whose first character is column `col`). */
  ghost predicate FromTokenAt(s: string, col: int, op: Operation)
  {
    var p := op.startTime - col;
    0 <= p < |s| && MatchToken(s[p..]).Some? && op == TokenOperation(MatchToken(s[p..]).value, op.startTime, op.clientId)
  }

  /** A token found in a suffix of `s` is a token of `s` at the same column. */
  lemma FromTokenInSuffix(s: string, d: nat, col: int, op: Operation)
    requires d <= |s| && FromTokenAt(s[d..], col + d, op)
    ensures FromTokenAt(s, col, op)
  {
    var q := op.startTime - col - d;
    assert s[d..][q..] == s[q + d..];
  }

  /** The scan is sound: every operation comes from the token that starts at
      its own column. */
  lemma {:induction false} ScanIsSound(s: string, col: int, clientId: int)
    ensures forall k :: 0 <= k < |ScanFrom(s, col, clientId)| ==> FromTokenAt(s, col, ScanFrom(s, col, clientId)[k])
    decreases |s|
  {
    var r := ScanFrom(s, col, clientId);
    if |s| > 0 {
      match MatchToken(s)
      case Some(t) =>
        var tail := ScanFrom(s[t.length..], col + t.length, clientId);
        ScanIsSound(s[t.length..], col + t.length, clientId);
        assert r == [TokenOperation(t, col, clientId)] + tail;
        forall k | 0 <= k < |r|
          ensures FromTokenAt(s, col, r[k])
        {
          if k > 0 {
            assert r[k] == tail[k - 1];
            FromTokenInSuffix(s, t.length, col, tail[k - 1]);
          } else {
            assert s[0..] == s;
          }
        }
      case None =>
        ScanIsSound(s[1..], col + 1, clientId);
        assert r == ScanFrom(s[1..], col + 1, clientId);
        forall k | 0 <= k < |r|
          ensures FromTokenAt(s, col, r[k])
        {
          FromTokenInSuffix(s, 1, col, r[k]);
        }
    }
  }

  /** A token of the pattern starts at position `p` of `s`. */
  ghost predicate TokenStartsAt(s: string, p: int)
  {
    0 <= p < |s| && MatchToken(s[p..]).Some?
  }

  /** Some operation of `ops` starts at column `c`. */
  ghost predicate StartsSomeOperation(ops: seq<Operation>, c: int)
  {
    exists k :: 0 <= k < |ops| && ops[k].startTime == c
  }

  /**
    The scan is complete: every column where a token starts yields an
    operation. No token lies inside another because `[` occurs in a token only
    at its front.
   */
  lemma TokenInSuffix(s: string, d: int, p: int)
    requires 0 <= d <= p && TokenStartsAt(s, p)
    ensures TokenStartsAt(s[d..], p - d)
  {
    assert s[d..][p - d..] == s[p..];
  }

  /** A token cannot start strictly inside another: `[` occurs only at a token's front. */
  lemma NoTokenInsideToken(s: string, t: Token, p: int)
    requires MatchToken(s) == Some(t) && 0 < p && TokenStartsAt(s, p)
    ensures t.length <= p
  {
    MatchTokenShape(s);
    MatchTokenShape(s[p..]);
    assert s[p..][0] == s[p];
  }

  lemma StartsAfterPrepend(a: Operation, tail: seq<Operation>, c: int)
    requires StartsSomeOperation(tail, c)
    ensures StartsSomeOperation([a] + tail, c)
  {
    var k :| 0 <= k < |tail| && tail[k].startTime == c;
    assert ([a] + tail)[k + 1] == tail[k];
  }

  /** Every column of `s` where a token starts yields a scanned operation. */
  ghost predicate ScanFindsAll(s: string, col: int, clientId: int)
  {
    forall p :: TokenStartsAt(s, p) ==> StartsSomeOperation(ScanFrom(s, col, clientId), col + p)
  }

  lemma {:induction false} CompleteAfterToken(s: string, col: int, clientId: int, t: Token)
    requires |s| > 0 && MatchToken(s) == Some(t)
    ensures ScanFindsAll(s, col, clientId)
    decreases |s|, 0
  {
    MatchTokenShape(s);
    ScanIsComplete(s[t.length..], col + t.length, clientId);
    var r := ScanFrom(s, col, clientId);
    var tail := ScanFrom(s[t.length..], col + t.length, clientId);
    var first := TokenOperation(t, col, clientId);
    assert r == [first] + tail;
    forall p | TokenStartsAt(s, p)
      ensures StartsSomeOperation(r, col + p)
    {
      if p == 0 {
        assert r[0].startTime == col;
      } else {
        NoTokenInsideToken(s, t, p);
        TokenInSuffix(s, t.length, p);
        StartsAfterPrepend(first, tail, col + p);
      }
    }
  }

  lemma {:induction false} CompleteAfterMiss(s: string, col: int, clientId: int)
    requires |s| > 0 && MatchToken(s).None?
    ensures ScanFindsAll(s, col, clientId)
    decreases |s|, 0
  {
    ScanIsComplete(s[1..], col + 1, clientId);
    assert ScanFrom(s, col, clientId) == ScanFrom(s[1..], col + 1, clientId);
    assert s[0..] == s;
    forall p | TokenStartsAt(s, p)
      ensures StartsSomeOperation(ScanFrom(s, col, clientId), col + p)
    {
      if p > 0 {
        TokenInSuffix(s, 1, p);
      }
    }
  }

  lemma {:induction false} ScanIsComplete(s: string, col: int, clientId: int)
    ensures ScanFindsAll(s, col, clientId)
    decreases |s|, 1
  {
    if |s| > 0 {
      match MatchToken(s)
      case Some(t) => CompleteAfterToken(s, col, clientId, t);
      case None => CompleteAfterMiss(s, col, clientId);
    }
  }

  /** The trimmed lines of a diagram: the trimmed diagram split at line feeds,
      each piece trimmed again. */
  function RawLines(s: string): (r: seq<string>)
    ensures |r| >= 1
  {
    var pieces := Split(Trim(s), '\n');
    seq(|pieces|, i requires 0 <= i < |pieces| => Trim(pieces[i]))
  }

  /** The first line from `i` on whose length is not `expected`. */
  function FirstLengthMismatch(lines: seq<string>, expected: nat, i: nat): (r: Option<nat>)
    requires i <= |lines|
    decreases |lines| - i
    ensures r.None? <==> forall j :: i <= j < |lines| ==> |lines[j]| == expected
    ensures r.Some? ==> i <= r.value < |lines| && |lines[r.value]| != expected
    ensures r.Some? ==> forall j :: i <= j < r.value ==> |lines[j]| == expected
  {
    if i == |lines| then None
    else if |lines[i]| != expected then Some(i)
    else FirstLengthMismatch(lines, expected, i + 1)
  }

  /** Every line has the first line's length. */
  ghost predicate SameLength(lines: seq<string>)
  {
    forall i :: 0 <= i < |lines| ==> |lines[i]| == |lines[0]|
  }

  /** `e` reports line `e.line`, the first whose length differs from the first
      line's. */
  ghost predicate FirstMismatchReported(lines: seq<string>, e: TimelineError)
  {
    && e.LineLengthMismatch?
    && 0 < e.line < |lines|
    && e.length == |lines[e.line]| != e.expected == |lines[0]|
    && forall j :: 0 <= j < e.line ==> |lines[j]| == e.expected
  }

  /** The length check over already split lines. */
  function CheckLengths(lines: seq<string>): (r: Result<seq<string>, TimelineError>)
    ensures r.Success? <==> SameLength(lines)
    ensures r.Success? ==> r.value == lines
    ensures r.Failure? ==> FirstMismatchReported(lines, r.error)
  {
    if |lines| == 0 then Success([])
    else
      var expected := |lines[0]|;
      match FirstLengthMismatch(lines, expected, 0)
      case Some(i) => Failure(LineLengthMismatch(i, |lines[i]|, expected))
      case None => Success(lines)
  }

  /**
    The lines of a diagram, all of the first line's length; otherwise the first
    line whose length differs, with its length and the expected one.
   */
  function ExtractLines(s: string): (r: Result<seq<string>, TimelineError>)
    ensures r.Success? <==> SameLength(RawLines(s))
    ensures r.Success? ==> r.value == RawLines(s) && |r.value| >= 1
    ensures r.Failure? ==> FirstMismatchReported(RawLines(s), r.error)
  {
    CheckLengths(RawLines(s))
  }

  /** Trimming keeps a line-feed-free piece free of line feeds. */
  lemma TrimKeepsOut(piece: string, c: char)
    requires c !in piece
    ensures c !in Trim(piece)
  {
    var t := Trim(piece);
    var a :| SliceWithinSpace(piece, a, t);
    forall j | 0 <= j < |t|
      ensures t[j] != c
    {
      assert t[j] == piece[a + j];
    }
  }

  /** Every line of a diagram is a whitespace-trimmed piece between two line
      feeds: it holds no line feed and neither begins nor ends with whitespace. */
  lemma RawLinesAreTrimmedPieces(s: string)
    ensures forall i :: 0 <= i < |RawLines(s)| ==> '\n' !in RawLines(s)[i]
    ensures forall i :: 0 <= i < |RawLines(s)| && |RawLines(s)[i]| > 0 ==>
              !IsJsSpace(RawLines(s)[i][0]) && !IsJsSpace(RawLines(s)[i][|RawLines(s)[i]| - 1])
  {
    var pieces := Split(Trim(s), '\n');
    SplitSpec(Trim(s), '\n');
    var lines := RawLines(s);
    forall i | 0 <= i < |lines|
      ensures '\n' !in lines[i]
      ensures |lines[i]| > 0 ==> !IsJsSpace(lines[i][0]) && !IsJsSpace(lines[i][|lines[i]| - 1])
    {
      assert lines[i] == Trim(pieces[i]);
      TrimKeepsOut(pieces[i], '\n');
    }
  }

  /** Line i parsed as the history of client i. */
  function ParseLines(lines: seq<string>): (r: History)
    ensures |r| == |lines|
    ensures forall i :: 0 <= i < |lines| ==> r[i] == ParseLine(i, lines[i])
  {
    seq(|lines|, i requires 0 <= i < |lines| => ParseLine(i, lines[i]))
  }

  /** `generateHistoryFromString`: client i's history is read from line i. */
  function GenerateHistoryFromString(s: string): (r: Result<History, TimelineError>)
    ensures r.Failure? <==> ExtractLines(s).Failure?
    ensures r.Failure? ==> r.error == ExtractLines(s).error
    ensures r.Success? ==> |r.value| == |ExtractLines(s).value| >= 1
    ensures r.Success? ==> forall i :: 0 <= i < |r.value| ==> r.value[i] == ParseLine(i, ExtractLines(s).value[i])
  {
    match ExtractLines(s)
    case Failure(e) => Failure(e)
    case Success(lines) => Success(ParseLines(lines))
  }

  /** A parsed history holds Reads and Writes issued by the client whose line
      they were read from, in strictly increasing, non-overlapping time order;
      it is well formed once the names are unique. */
  lemma ParsedHistoryShape(s: string)
    requires GenerateHistoryFromString(s).Success?
    ensures forall c, k :: 0 <= c < |GenerateHistoryFromString(s).value| && 0 <= k < |GenerateHistoryFromString(s).value[c]| ==>
              ParsedShape(GenerateHistoryFromString(s).value[c][k], c)
    ensures forall c, k :: 0 <= c < |GenerateHistoryFromString(s).value| && 0 <= k < |GenerateHistoryFromString(s).value[c]| - 1 ==>
              GenerateHistoryFromString(s).value[c][k].endTime < GenerateHistoryFromString(s).value[c][k + 1].startTime
    ensures (forall c, k, d, m ::
               0 <= c < |GenerateHistoryFromString(s).value| && 0 <= k < |GenerateHistoryFromString(s).value[c]| &&
               0 <= d < |GenerateHistoryFromString(s).value| && 0 <= m < |GenerateHistoryFromString(s).value[d]| &&
               GenerateHistoryFromString(s).value[c][k].name == GenerateHistoryFromString(s).value[d][m].name
               ==> c == d && k == m)
            ==> WellFormedHistory(GenerateHistoryFromString(s).value)
  {
  }

  /** `hist[j]` is the first operation of `hist` named `name`. */
  ghost predicate FirstNamed(hist: seq<Operation>, name: string, j: int)
  {
    0 <= j < |hist| && hist[j].name == name && forall m :: 0 <= m < j ==> hist[m].name != name
  }

  /** Position of the operation `Array.prototype.find` returns when searching by
      name, or -1 when there is none. */
  function FindByName(hist: seq<Operation>, name: string): (r: int)
    ensures r == -1 <==> forall j :: 0 <= j < |hist| ==> hist[j].name != name
    ensures r != -1 ==> FirstNamed(hist, name, r)
  {
    if |hist| == 0 then -1
    else if hist[0].name == name then 0
    else
      var r := FindByName(hist[1..], name);
      if r == -1 then -1 else r + 1
  }

  /** How a parsed serialization entry is resolved against the owning client's
      history: the history operation of the same name, otherwise the parsed entry
      turned into a Visibility. */
  ghost predicate ResolvedAgainst(hist: seq<Operation>, parsed: Operation, op: Operation)
  {
    || (exists j :: FirstNamed(hist, parsed.name, j) && op == hist[j])
    || ((forall j :: 0 <= j < |hist| ==> hist[j].name != parsed.name) && op == parsed.(kind := Visibility))
  }

  function Resolve(hist: seq<Operation>, parsed: Operation): (r: Operation)
    ensures ResolvedAgainst(hist, parsed, r)
  {
    var j := FindByName(hist, parsed.name);
    if j == -1 then parsed.(kind := Visibility) else hist[j]
  }

  /**
    The serializations of lines `i..`. Line i is resolved against history i;
    when there is no history i and the line holds a token, looking the token up
    fails. An empty line never looks anything up.
   */
  function SerializeFrom(h: History, lines: seq<string>, i: nat): (r: Result<SystemSerialization, TimelineError>)
    requires i <= |lines|
    decreases |lines| - i
    ensures r.Success? ==> |r.value| == |lines| - i
    ensures r.Success? <==> forall c :: i <= c < |lines| && c >= |h| ==> |ParseLine(c, lines[c])| == 0
    ensures r.Failure? ==>
              && r.error.MissingClientHistory?
              && i <= r.error.clientId < |lines| && |h| <= r.error.clientId
              && |ParseLine(r.error.clientId, lines[r.error.clientId])| > 0
              && forall c :: i <= c < r.error.clientId && c >= |h| ==> |ParseLine(c, lines[c])| == 0
  {
    if i == |lines| then Success([])
    else
      var parsed := ParseLine(i, lines[i]);
      if i >= |h| && |parsed| > 0 then Failure(MissingClientHistory(i))
      else
        var hist := if i < |h| then h[i] else [];
        var ops := seq(|parsed|, k requires 0 <= k < |parsed| => Resolve(hist, parsed[k]));
        match SerializeFrom(h, lines, i + 1)
        case Failure(e) => Failure(e)
        case Success(rest) => Success([ops] + rest)
  }

  /** `ops` is line c's tokens, each resolved against history c. */
  ghost predicate LineResolved(h: History, lines: seq<string>, c: nat, ops: seq<Operation>)
    requires c < |lines|
  {
    && |ops| == |ParseLine(c, lines[c])|
    && forall k :: 0 <= k < |ops| ==> c < |h| && ResolvedAgainst(h[c], ParseLine(c, lines[c])[k], ops[k])
  }

  /** The first serialization produced from line i resolves line i. */
  lemma SerializeFromHead(h: History, lines: seq<string>, i: nat)
    requires i < |lines|
    requires SerializeFrom(h, lines, i).Success?
    ensures |SerializeFrom(h, lines, i).value| > 0
    ensures LineResolved(h, lines, i, SerializeFrom(h, lines, i).value[0])
    ensures SerializeFrom(h, lines, i + 1).Success?
    ensures SerializeFrom(h, lines, i).value[1..] == SerializeFrom(h, lines, i + 1).value
  {
  }

  /** Entry k of serialization c is token k of line c resolved against history c. */
  lemma {:induction false} SerializeFromResolves(h: History, lines: seq<string>, i: nat)
    requires i <= |lines|
    requires SerializeFrom(h, lines, i).Success?
    decreases |lines| - i
    ensures forall c :: 0 <= c < |SerializeFrom(h, lines, i).value| ==>
              i + c < |lines| && LineResolved(h, lines, i + c, SerializeFrom(h, lines, i).value[c])
  {
    if i < |lines| {
      SerializeFromHead(h, lines, i);
      SerializeFromResolves(h, lines, i + 1);
      var r := SerializeFrom(h, lines, i).value;
      var rest := SerializeFrom(h, lines, i + 1).value;
      forall c | 0 <= c < |r|
        ensures i + c < |lines| && LineResolved(h, lines, i + c, r[c])
      {
        if c > 0 {
          assert r[c] == rest[c - 1];
        }
      }
    }
  }

  /** `op`, standing at client `clientId`'s serialization, is an operation of
      that client's history or a Visibility observed by that client. */
  ghost predicate OriginalOrVisibility(hist: seq<Operation>, op: Operation, clientId: int)
  {
    op in hist || (op.kind == Visibility && op.clientId == clientId)
  }

  lemma ResolvedIsOriginalOrVisibility(hist: seq<Operation>, parsed: Operation, op: Operation, clientId: int)
    requires ResolvedAgainst(hist, parsed, op) && ParsedShape(parsed, clientId)
    ensures OriginalOrVisibility(hist, op, clientId)
  {
    if exists j :: FirstNamed(hist, parsed.name, j) && op == hist[j] {
      var j :| FirstNamed(hist, parsed.name, j) && op == hist[j];
    }
  }

  /** Entries named after an operation of the owner's history are that very
      operation; every other entry is a Visibility observed by the line's
      client; a non-empty serialization always has a history to match. */
  lemma SerializedEntriesAreOriginalOrVisibility(h: History, lines: seq<string>, i: nat)
    requires i <= |lines|
    requires SerializeFrom(h, lines, i).Success?
    ensures forall c, k :: 0 <= c < |SerializeFrom(h, lines, i).value| && 0 <= k < |SerializeFrom(h, lines, i).value[c]| ==>
              i + c < |h| && OriginalOrVisibility(h[i + c], SerializeFrom(h, lines, i).value[c][k], i + c)
  {
    var r := SerializeFrom(h, lines, i).value;
    SerializeFromResolves(h, lines, i);
    forall c, k | 0 <= c < |r| && 0 <= k < |r[c]|
      ensures i + c < |h| && OriginalOrVisibility(h[i + c], r[c][k], i + c)
    {
      var parsed := ParseLine(i + c, lines[i + c]);
      assert LineResolved(h, lines, i + c, r[c]);
      ResolvedIsOriginalOrVisibility(h[i + c], parsed[k], r[c][k], i + c);
    }
  }

  /** `generateFullSerializationFromString`: serialization i is read from
      line i and resolved against history i (see `SerializeFrom`). */
  function GenerateFullSerialization(h: History, s: string): (r: Result<SystemSerialization, TimelineError>)
    ensures ExtractLines(s).Failure? ==> r == Failure(ExtractLines(s).error)
    ensures ExtractLines(s).Success? ==> r == SerializeFrom(h, ExtractLines(s).value, 0)
  {
    match ExtractLines(s)
    case Failure(e) => Failure(e)
    case Success(lines) => SerializeFrom(h, lines, 0)
  }

  /** Every entry of serialization i is an operation of history i or a
      Visibility observed by client i. */
  ghost predicate EntriesOriginalOrVisibility(h: History, ss: SystemSerialization)
  {
    forall i, k :: 0 <= i < |ss| && 0 <= k < |ss[i]| ==> i < |h| && OriginalOrVisibility(h[i], ss[i][k], i)
  }

  lemma SerializedEntriesFromStart(h: History, lines: seq<string>)
    requires SerializeFrom(h, lines, 0).Success?
    ensures EntriesOriginalOrVisibility(h, SerializeFrom(h, lines, 0).value)
  {
    var ss := SerializeFrom(h, lines, 0).value;
    SerializeFromResolves(h, lines, 0);
    forall i, k | 0 <= i < |ss| && 0 <= k < |ss[i]|
      ensures i < |h| && OriginalOrVisibility(h[i], ss[i][k], i)
    {
      assert LineResolved(h, lines, i, ss[i]);
      ResolvedIsOriginalOrVisibility(h[i], ParseLine(i, lines[i])[k], ss[i][k], i);
    }
  }

  /** The serializations of already split lines, after the length check. */
  lemma {:induction false} SerializeLinesSpec(h: History, lines: seq<string>, r: Result<SystemSerialization, TimelineError>)
    requires r == (match CheckLengths(lines) case Failure(e) => Failure(e) case Success(ls) => SerializeFrom(h, ls, 0))
    ensures r.Success? <==> SameLength(lines) && forall c :: 0 <= c < |lines| && c >= |h| ==> |ParseLine(c, lines[c])| == 0
    ensures r.Success? ==>
              && |r.value| == |lines|
              && EntriesOriginalOrVisibility(h, r.value)
    ensures r.Failure? ==>
              || FirstMismatchReported(lines, r.error)
              || (&& SameLength(lines) && r.error.MissingClientHistory?
                  && |h| <= r.error.clientId < |lines| && |ParseLine(r.error.clientId, lines[r.error.clientId])| > 0
                  && forall c :: |h| <= c < r.error.clientId ==> |ParseLine(c, lines[c])| == 0)
  {
    if r.Success? {
      assert CheckLengths(lines).value == lines;
      SerializedEntriesFromStart(h, lines);
    }
  }

  /**
    Building a system serialization succeeds exactly when the diagram's lines
    share one length and no line without a matching client history holds a
    token. Then there is one serialization per line, and every entry of
    serialization i is an operation of history i or a Visibility observed by
    client i. Otherwise the error is the first length mismatch, or, when the
    lengths agree, the first line that has tokens but no history.
   */
  lemma FullSerializationSpec(h: History, s: string)
    ensures var lines, r := RawLines(s), GenerateFullSerialization(h, s);
            && (r.Success? <==> SameLength(lines) && forall c :: 0 <= c < |lines| && c >= |h| ==> |ParseLine(c, lines[c])| == 0)
            && (r.Success? ==>
                  && |r.value| == |lines|
                  && EntriesOriginalOrVisibility(h, r.value))
            && (r.Failure? ==>
                  || FirstMismatchReported(lines, r.error)
                  || (&& SameLength(lines) && r.error.MissingClientHistory?
                      && |h| <= r.error.clientId < |lines| && |ParseLine(r.error.clientId, lines[r.error.clientId])| > 0
                      && forall c :: |h| <= c < r.error.clientId ==> |ParseLine(c, lines[c])| == 0))
  {
    var lines := RawLines(s);
    assert ExtractLines(s) == CheckLengths(lines);
    SerializeLinesSpec(h, lines, GenerateFullSerialization(h, s));
  }
}
