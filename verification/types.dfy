/**
  The data model shared by the consistency checks, the explanation renderer and
  the timeline parser: operations, per-client histories and per-client
  serializations.
 */
module Types {

  /** Visibility is spelled `Visiility` in the enum declaration and `Visibility`
      where the parser uses it; both denote this one variant. */
  datatype OpKind = Read | Write | Visibility

  /**
    One read, write or visibility marker. `clientId` is the issuer for a Read or
    Write and the observing client for a Visibility; `isHistory` says whether the
    operation belongs to the history section or to a serialization.
   */
  datatype Operation = Operation(
    kind: OpKind,
    isHistory: bool,
    clientId: int,
    name: string,
    value: int,
    startTime: int,
    endTime: int)

  /** Client id i owns index i: `Object.entries` visits integer keys in ascending order. */
  type History = seq<seq<Operation>>

  type Serialization = seq<Operation>

  type SystemSerialization = seq<Serialization>

  /** The operation names of `s`, in order: `map(s => s.operationName)`. */
  function Names(s: seq<Operation>): (r: seq<string>)
    ensures |r| == |s| && forall k :: 0 <= k < |s| ==> r[k] == s[k].name
  {
    seq(|s|, k requires 0 <= k < |s| => s[k].name)
  }

  /** The identity an operation is known by: (clientId, operationName, isHistory). */
  function IdentityKey(op: Operation): (int, string, bool)
  {
    (op.clientId, op.name, op.isHistory)
  }

  /** The identity invariant: two entries of `ops` sharing an identity key are the same operation. */
  ghost predicate IdentifiedByKey(ops: seq<Operation>)
  {
    forall i, j :: 0 <= i < |ops| && 0 <= j < |ops| && IdentityKey(ops[i]) == IdentityKey(ops[j]) ==> ops[i] == ops[j]
  }

  /** A name free of the space that the pair keys and the joined name lists use
      as a separator. */
  predicate SpaceFree(name: string)
  {
    ' ' !in name
  }

  ghost predicate SpaceFreeNames(ops: seq<Operation>)
  {
    forall k :: 0 <= k < |ops| ==> SpaceFree(ops[k].name)
  }

  ghost predicate AllSpaceFree(opss: seq<seq<Operation>>)
  {
    forall c :: 0 <= c < |opss| ==> SpaceFreeNames(opss[c])
  }

  /** A name as the space-joined name lists need it: space-free and also
      non-empty, since an empty name adds nothing between two separators. */
  predicate NameOk(name: string)
  {
    |name| > 0 && SpaceFree(name)
  }

  ghost predicate NamesOk(ops: seq<Operation>)
  {
    forall k :: 0 <= k < |ops| ==> NameOk(ops[k].name)
  }

  ghost predicate AllNamesOk(opss: seq<seq<Operation>>)
  {
    forall c :: 0 <= c < |opss| ==> NamesOk(opss[c])
  }

  /** Each history entry is a Read or Write issued by the client that owns it,
      and names are unique within the whole history. */
  ghost predicate WellFormedHistory(h: History)
  {
    && (forall c, k :: 0 <= c < |h| && 0 <= k < |h[c]| ==>
          h[c][k].kind != Visibility && h[c][k].clientId == c && h[c][k].isHistory)
    && (forall c, k, d, m ::
          0 <= c < |h| && 0 <= k < |h[c]| && 0 <= d < |h| && 0 <= m < |h[d]| && h[c][k].name == h[d][m].name
          ==> c == d && k == m)
  }

  /**
    The documented shape of a system serialization: one serialization per
    client; the Read and Write entries of serialization i are history i's
    operations themselves, each exactly once; every other entry is a Visibility
    observed by client i that copies the name and value of a Write of another
    client; and every Write of every other client has such a Visibility in
    serialization i.
   */
  ghost predicate WellFormedSystem(h: History, ss: SystemSerialization)
  {
    && WellFormedHistory(h)
    && |ss| == |h|
    && forall i :: 0 <= i < |ss| ==>
         && OwnOperationsOnce(h[i], ss[i])
         && VisibilitiesObserveOthers(h, ss[i], i)
         && OthersWritesObserved(h, ss[i], i)
  }

  /** The Read and Write entries of `s` are operations of `hist`, and every
      operation of `hist` occurs in `s` exactly once. */
  ghost predicate OwnOperationsOnce(hist: seq<Operation>, s: Serialization)
  {
    && (forall k :: 0 <= k < |s| && s[k].kind != Visibility ==> s[k] in hist)
    && (forall k :: 0 <= k < |hist| ==> multiset(s)[hist[k]] == 1)
  }

  /** Every Visibility of `s` is observed by client i and copies the name and
      value of a Write of another client. */
  ghost predicate VisibilitiesObserveOthers(h: History, s: Serialization, i: int)
  {
    forall k :: 0 <= k < |s| && s[k].kind == Visibility ==>
      s[k].clientId == i &&
      exists c, m :: 0 <= c < |h| && c != i && 0 <= m < |h[c]| && h[c][m].kind == Write &&
        h[c][m].name == s[k].name && h[c][m].value == s[k].value
  }

  /** Every Write of a client other than i has a Visibility in `s` with its
      name and value. */
  ghost predicate OthersWritesObserved(h: History, s: Serialization, i: int)
  {
    forall c, m :: 0 <= c < |h| && c != i && 0 <= m < |h[c]| && h[c][m].kind == Write ==>
      exists k :: 0 <= k < |s| && s[k].kind == Visibility && s[k].name == h[c][m].name && s[k].value == h[c][m].value
  }
}
