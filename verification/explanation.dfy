/**
  Explanation fragments, the one fragment sequence the engine builds (for a
  monotonic-writes inversion), and the plain text the explanation view shows
  for a fragment sequence.
 */
module Explanation {
  import opened Wrappers
  import opened Types
  import opened Text

  datatype TextEmphasis = Bold | Italic | Underline

  /**
    A renderable piece of an explanation. The first four kinds are the declared
    union; the view also renders the two list-of-references kinds. A list's
    children are bullets, each a fragment sequence of its own, which is how the
    view renders them.
   */
  datatype Fragment =
    | OperationFragment(operation: Operation)
    | ClientFragment(clientId: int)
    | StringFragment(emphasis: Option<seq<TextEmphasis>>, content: string)
    | ListFragment(ordered: bool, children: seq<Bullet>)
    | OperationsFragment(operations: seq<Operation>)
    | ClientsFragment(clientIds: seq<int>)

  /** One bullet of a list fragment: a fragment sequence of its own. */
  datatype Bullet = Bullet(fragments: seq<Fragment>)

  datatype PredicateResult = PredicateResult(satisfied: bool, explanation: seq<Fragment>)

  function Plain(content: string): Fragment
  {
    StringFragment(None, content)
  }

  /**
    "<first serialized write> became visible to <serializing client> before
    <second historical write> became visible to it. However, <issuing client>,
    who originally performed these writes, performed <first historical write>
    before <second serialized write>."
   */
  function MonotonicWritesExplanation(
    issuingClientId: int,
    serializingClientId: int,
    firstHistoricalWrite: Operation,
    secondHistoricalWrite: Operation,
    firstSerializedWrite: Operation,
    secondSerializedWrite: Operation): (r: seq<Fragment>)
  {
    [ OperationFragment(firstSerializedWrite),
      Plain("became visible to"),
      ClientFragment(serializingClientId),
      Plain("before"),
      OperationFragment(secondHistoricalWrite),
      Plain("became visible to it. However,"),
      ClientFragment(issuingClientId),
      Plain(", who originally performed these writes, performed"),
      OperationFragment(firstHistoricalWrite),
      StringFragment(Some([]), "before"),
      OperationFragment(secondSerializedWrite),
      Plain(".") ]
  }

  /** Twelve fragments, alternating a named operation or client with fixed
      wording; only the second "before" is emphasised. */
  lemma MonotonicWritesExplanationShape(
    issuingClientId: int,
    serializingClientId: int,
    firstHistoricalWrite: Operation,
    secondHistoricalWrite: Operation,
    firstSerializedWrite: Operation,
    secondSerializedWrite: Operation)
    ensures var r := MonotonicWritesExplanation(issuingClientId, serializingClientId,
              firstHistoricalWrite, secondHistoricalWrite, firstSerializedWrite, secondSerializedWrite);
            && |r| == 12 && r[11] == Plain(".")
            && (forall k :: 0 <= k < 12 && k % 2 == 1 ==> r[k].StringFragment?)
            && (forall k :: 0 <= k < 12 && k % 2 == 0 ==> r[k].OperationFragment? || r[k].ClientFragment?)
            && r[2] == ClientFragment(serializingClientId) && r[6] == ClientFragment(issuingClientId)
            && r[0] == OperationFragment(firstSerializedWrite) && r[4] == OperationFragment(secondHistoricalWrite)
            && r[8] == OperationFragment(firstHistoricalWrite) && r[10] == OperationFragment(secondSerializedWrite)
            && (forall k :: 0 <= k < 12 && r[k].StringFragment? ==> (r[k].emphasis.Some? <==> k == 9))
            && r[9].emphasis == Some([])
  {
  }

  // ---------------------------------------------------------------- rendering

  /** `listToEnglish`: a label followed by an English enumeration with a serial comma. */
  function ListToEnglish(name: string, items: seq<string>): string
  {
    if |items| == 0 then ""
    else if |items| == 1 then name + " " + items[0]
    else if |items| == 2 then name + " " + items[0] + " and " + items[1]
    else name + " " + JoinWith(items[..|items| - 1], ", ") + ", and " + items[|items| - 1]
  }

  /** Reference enumeration of two or more items, built one item at a time. */
  function SerialList(items: seq<string>): string
    requires |items| >= 2
  {
    if |items| == 2 then items[0] + ", and " + items[1]
    else items[0] + ", " + SerialList(items[1..])
  }

  /** Reference enumeration: nothing, one item, "a and b", or the serial list. */
  function EnglishItems(items: seq<string>): string
  {
    if |items| == 0 then ""
    else if |items| == 1 then items[0]
    else if |items| == 2 then items[0] + " and " + items[1]
    else SerialList(items)
  }

  lemma {:induction false} JoinThenSerialComma(items: seq<string>)
    requires |items| >= 3
    ensures JoinWith(items[..|items| - 1], ", ") + ", and " + items[|items| - 1] == SerialList(items)
    decreases |items|
  {
    var n := |items|;
    if n == 3 {
      assert items[..2][1..] == [items[1]];
    } else {
      JoinThenSerialComma(items[1..]);
      assert items[..n - 1][1..] == items[1..][..n - 2];
    }
  }

  /** The view's enumeration agrees with the reference one, after the label and a space. */
  lemma ListToEnglishIsEnumeration(name: string, items: seq<string>)
    ensures ListToEnglish(name, items) == if |items| == 0 then "" else name + " " + EnglishItems(items)
  {
    if |items| >= 3 {
      JoinThenSerialComma(items);
    }
  }

  lemma {:induction false} SerialListEndsWithLast(items: seq<string>)
    requires |items| >= 2
    ensures |SerialList(items)| >= |items[|items| - 1]|
    ensures SerialList(items)[|SerialList(items)| - |items[|items| - 1]|..] == items[|items| - 1]
    decreases |items|
  {
    if |items| > 2 {
      SerialListEndsWithLast(items[1..]);
    }
  }

  /** A non-empty enumeration starts with the label and a space and ends with the last item. */
  lemma ListToEnglishBounds(name: string, items: seq<string>)
    requires |items| > 0
    ensures var r := ListToEnglish(name, items);
      && |r| >= |name| + 1 + |items[|items| - 1]|
      && r[..|name| + 1] == name + " "
      && r[|r| - |items[|items| - 1]|..] == items[|items| - 1]
  {
    ListToEnglishIsEnumeration(name, items);
    if |items| >= 3 {
      SerialListEndsWithLast(items);
    }
  }

  function ClientIdStrings(ids: seq<int>): (r: seq<string>)
    ensures |r| == |ids| && forall k :: 0 <= k < |ids| ==> r[k] == IntToString(ids[k])
  {
    seq(|ids|, k requires 0 <= k < |ids| => IntToString(ids[k]))
  }

  /** Strings laid end to end. */
  function Concat(parts: seq<string>): string
  {
    if |parts| == 0 then "" else parts[0] + Concat(parts[1..])
  }

  /** The text one fragment contributes to the explanation view; a list shows its
      bullets one after the other. */
  function FragmentText(f: Fragment): string
    decreases f
  {
    match f
    case StringFragment(_, content) => content
    case ClientFragment(id) => "Client " + IntToString(id)
    case OperationFragment(op) => "Operation " + op.name
    case ListFragment(_, children) => Concat(seq(|children|, i requires 0 <= i < |children| => BulletText(children[i])))
    case OperationsFragment(ops) => ListToEnglish("Operation", Names(ops))
    case ClientsFragment(ids) => ListToEnglish("Client", ClientIdStrings(ids))
  }

  function BulletText(b: Bullet): string
    decreases b
  {
    Concat(seq(|b.fragments|, k requires 0 <= k < |b.fragments| => FragmentText(b.fragments[k])))
  }

  /** The text of a fragment sequence: the texts of its fragments, with nothing in between. */
  function FragmentsText(fs: seq<Fragment>): string
  {
    Concat(seq(|fs|, k requires 0 <= k < |fs| => FragmentText(fs[k])))
  }

  /** The view shows a monotonic-writes inversion as these twelve spans, placed
      side by side with no separator between them. */
  lemma MonotonicWritesExplanationText(
    issuingClientId: int,
    serializingClientId: int,
    firstHistoricalWrite: Operation,
    secondHistoricalWrite: Operation,
    firstSerializedWrite: Operation,
    secondSerializedWrite: Operation)
    ensures FragmentsText(MonotonicWritesExplanation(issuingClientId, serializingClientId,
        firstHistoricalWrite, secondHistoricalWrite, firstSerializedWrite, secondSerializedWrite)) ==
      Concat([
        "Operation " + firstSerializedWrite.name, "became visible to",
        "Client " + IntToString(serializingClientId), "before",
        "Operation " + secondHistoricalWrite.name, "became visible to it. However,",
        "Client " + IntToString(issuingClientId), ", who originally performed these writes, performed",
        "Operation " + firstHistoricalWrite.name, "before",
        "Operation " + secondSerializedWrite.name, "."])
  {
    var fs := MonotonicWritesExplanation(issuingClientId, serializingClientId,
      firstHistoricalWrite, secondHistoricalWrite, firstSerializedWrite, secondSerializedWrite);
    var parts := seq(|fs|, k requires 0 <= k < |fs| => FragmentText(fs[k]));
    var expected := [
      "Operation " + firstSerializedWrite.name, "became visible to",
      "Client " + IntToString(serializingClientId), "before",
      "Operation " + secondHistoricalWrite.name, "became visible to it. However,",
      "Client " + IntToString(issuingClientId), ", who originally performed these writes, performed",
      "Operation " + firstHistoricalWrite.name, "before",
      "Operation " + secondSerializedWrite.name, "."];
    assert parts == expected;
  }
}
