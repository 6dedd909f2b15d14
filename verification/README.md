# Consistency-model checks, explanations and ASCII timelines in Dafny

This project models the core of a distributed-consistency teaching tool. A
*History* records, per client, the reads and writes that client performed on
one register `x`, each with a start and an end time. A *SystemSerialization*
gives, per client, the order in which that client claims to have seen
operations: its own reads and writes, plus a Visibility entry for each write
of another client. The core has three parts:

- **Consistency predicates** (`src/backend/predicates.ts` over
  `src/backend/types.ts`). There are seven base checks: RVal, ReadYourWrites,
  MonotonicReads, MonotonicWrites, WritesFollowReads, SingleOrder and
  RealTime. The four composite records PRAM, Causal, Sequential and
  Linearizable are built from them.
- **Explanation fragments** (`src/backend/explanation.ts`) and the plain text
  the explanation view shows for them, including `listToEnglish`
  (`src/components/explanation/Explanation.tsx`).
- **The ASCII timeline parser and renderer** (`src/backend/util.ts`). It turns
  lines such as `---[A:x<-1]----[B:x->1]` into operations whose times are
  column positions, and renders operations back into dash-padded lines.

Each check is a total predicate over `seq<seq<Operation>>`, indexed by client
id. Each is paired with a lemma that characterises it by an independent
definition:
- "read values form a subsequence of write values";
- "every in-order pair of writes is a causal edge";
- "each read returns the latest earlier write";
- and so on.

The parser and renderer are linked by a single-line round-trip lemma.

Modules, one per file:
- `Wrappers`: `Option` and `Result`.
- `Types`: operations and the documented invariants.
- `Seqs`: subsequence, index-of and flatten.
- `Text`: JavaScript string operations, namely trim, split, join, repeat and number formatting.
- `Predicates`: the checks.
- `SessionFacts`, `CausalFacts`, `OrderFacts`: characterisation lemmas.
- `Explanation`: fragments and their text.
- `Timeline`: the parser.
- `Diagrams`: sorting and rendering.

Points where the code does something other than its names suggest:
- SingleOrder compares whole name lists, reads included, not the non-read projection.
- RealTime compares end time against end time over the flattened history, not write/visibility interval overlap.
- There is no ClientOrder check, and PRAM is the conjunction of MonotonicReads, MonotonicWrites and ReadYourWrites only.
- Sequential neither evaluates RVal nor returns a combined flag.
- The checks return booleans, not `{satisfied, explanation}` records.
- The combined flags of Causal and Linearizable read the child record, which is an always-truthy object.

Error paths are `Result` values:
- a line-length mismatch;
- a missing client history;
- an operation too short to draw;
- overlapping operations, which make `"-".repeat` receive a negative count.

## Model

| member | source | states |
|---|---|---|
| OrderFacts.HistoryIdentifiedByKey | src/backend/types.ts:23-32 | in a well-formed history (clients own their Read/Write entries, names unique) two operations with equal (clientId, operationName, isHistory) are the same operation |
| SessionFacts.RvalCharacterization | src/backend/predicates.ts:45-70 | RVal holds iff in every serialization each non-Write entry has the value of the nearest preceding Write, and one exists |
| SessionFacts.RvalFromDecides | src/backend/predicates.ts:52-64 | the left-to-right scan with `lastValue` accepts a suffix iff every non-Write in it reads the latest earlier Write |
| SessionFacts.RywCharacterization | src/backend/predicates.ts:72-94 | ReadYourWrites holds iff every non-Write entry's value was written by an earlier Write of the same serialization |
| SessionFacts.WriteOnlyPassesRyw | src/backend/predicates.ts:82-91 | serializations holding only Writes always pass ReadYourWrites |
| SessionFacts.RvalImpliesRyw | src/backend/predicates.ts:45-94 | RVal implies ReadYourWrites |
| SessionFacts.GreedyMatchDecidesSubsequence | src/backend/predicates.ts:132-143 | the greedy first-match loop (indexOf, then slice past the match) succeeds iff the read values are a subsequence of the write values |
| SessionFacts.MonotonicReadsCharacterization | src/backend/predicates.ts:117-147 | MonotonicReads holds iff, in every serialization, the Read values form a subsequence of the Write values |
| SessionFacts.MonotonicHistoryCharacterization | src/backend/predicates.ts:104-112 | the `lastIndex` loop accepts a history iff every one of its operations occurs among the serialization's Writes, at strictly increasing positions |
| SessionFacts.IncreasingOrderIsSubsequence | src/backend/predicates.ts:101-112 | when the Writes are distinct, strictly increasing positions means the history is a subsequence of the Writes |
| SessionFacts.MonotonicWritesCharacterization | src/backend/predicates.ts:96-115 | MonotonicWrites holds iff every client history appears, in order, among the Writes of every serialization |
| SessionFacts.ReadFailsMonotonicWrites | src/backend/predicates.ts:101-112 | a history holding a Read fails MonotonicWrites whenever there is a serialization, because a Read is never among the Writes |
| SessionFacts.OtherClientFailsMonotonicWrites | src/backend/predicates.ts:100-113 | in a well-formed system with a non-empty history of another client, MonotonicWrites fails: that client's Writes appear only as Visibility entries |
| CausalFacts.PairKeyInjective | src/backend/predicates.ts:289-291 | when the first names hold no space, equal pair keys mean equal name pairs, and conversely |
| CausalFacts.ValueMapKeepsLastWrite | src/backend/predicates.ts:165-175 | a value is mapped iff some Write in the flattened history wrote it, and it maps to the last such Write |
| CausalFacts.ClientEdgesSpec | src/backend/predicates.ts:180-210 | one client's scan reports success iff every Read in it resolves, and it adds exactly the (resolved write, later Write) pairs before the first unresolved Read |
| CausalFacts.SystemEdgesSpec | src/backend/predicates.ts:180-210 | the `every` over clients collects a client's edges iff all earlier clients' Reads resolve: an unresolved Read stops collection for all later clients |
| CausalFacts.EdgeKeyIsEdgeNames | src/backend/predicates.ts:180-210 | with space-free names, an edge key is collected iff the names form a causal edge |
| CausalFacts.SetifySubset | src/backend/predicates.ts:226-234 | the pair set is a subset of the edges iff every in-order pair's key is an edge |
| CausalFacts.SerializationFollowsReads | src/backend/predicates.ts:213-223 | with space-free names, one serialization passes iff every in-order pair of its Writes is a causal edge |
| CausalFacts.WritesFollowReadsCharacterization | src/backend/predicates.ts:161-224 | with space-free names, WritesFollowReads holds iff, in every serialization, every in-order pair of Writes is a causal edge; the inclusion runs from serialization pairs to edges |
| CausalFacts.NoReadsNoEdges | src/backend/predicates.ts:180-210 | a history without Reads yields no causal edges at all |
| CausalFacts.ReadFreeHistoryFailsWritesFollowReads | src/backend/predicates.ts:161-224 | when the history holds no Read at all, any serialization listing two Writes in order fails WritesFollowReads, because no edge is collected |
| CausalFacts.IndependentWritesFailWritesFollowReads | src/backend/predicates.ts:161-224 | a single client's two Writes, serialized in program order, fail WritesFollowReads when the history holds no Read |
| OrderFacts.OrderStringInjective | src/backend/predicates.ts:244-254 | with non-empty space-free names, two space-joined name lists are equal iff the name sequences are equal |
| OrderFacts.SingleOrderCharacterization | src/backend/predicates.ts:236-257 | SingleOrder holds iff there is a serialization and every serialization's name sequence, reads included, equals client 0's |
| OrderFacts.EmptyNameConflatesOrders | src/backend/predicates.ts:244-256 | without the name restriction, an empty name makes `[]` and `[v]` join to the same string, so SingleOrder accepts different orders |
| OrderFacts.SetifyPrecedes | src/backend/predicates.ts:319-327 | with space-free names in the serialization and in the first operation, a pair key is in the arbitration set iff the first name occurs before the second in the serialization |
| OrderFacts.RealTimeCharacterization | src/backend/predicates.ts:306-349 | RealTime holds iff SingleOrder holds and, for flattened history entries i < j with end_i < end_j, name_i precedes name_j in client 0's serialization |
| OrderFacts.AbsentOperationFailsRealTime | src/backend/predicates.ts:329-346 | with space-free names, an operation missing from client 0's serialization fails RealTime as soon as it ends before a later flattened entry |
| OrderFacts.RealTimeIgnoresReversedPairs | src/backend/predicates.ts:331-334 | a pair whose flattened order disagrees with the end-time order is not checked |
| OrderFacts.PramCharacterization | src/backend/predicates.ts:259-273 | the PRAM flag holds iff, in every serialization, the Read values are a subsequence of the Write values, every client history occurs in order among the Writes, and every non-Write reads a value written earlier in it |
| Predicates.IsCausal | src/backend/predicates.ts:275-287 | the combined Causal flag equals WritesFollowReads alone, since the PRAM child is an always-truthy object |
| OrderFacts.SequentialCharacterization | src/backend/predicates.ts:293-304 | with space-free history names and non-empty space-free serialization names: the SingleOrder field holds iff all serializations list client 0's names in its order; the Causal flag holds iff every in-order pair of Writes in every serialization is a causal edge; the PRAM flag inside it holds iff the three session guarantees do |
| Predicates.IsLinearizable | src/backend/predicates.ts:351-363 | the combined Linearizable flag equals RealTime alone, and so implies SingleOrder |
| OrderFacts.LinearizableCharacterization | src/backend/predicates.ts:351-363 | with the same name conditions, the Linearizable flag holds iff all serializations list client 0's names in its order and client 0 lists, for flattened history entries i < j with end_i < end_j, name_i before name_j |
| OrderFacts.CausalFlagIgnoresPram | src/backend/predicates.ts:275-287 | a stray Read makes the Causal flag true while PRAM is false |
| OrderFacts.LinearizableFlagIgnoresSequential | src/backend/predicates.ts:351-363 | the same input makes the Linearizable flag true while PRAM and RVal fail |
| Explanation.MonotonicWritesExplanationShape | src/backend/explanation.ts:50-100 | twelve fragments: odd positions are strings, even positions are operations or clients; clients at 2 and 6; operations at 0, 4, 8, 10 in the documented order; the last is "."; only position 9 carries an (empty) emphasis |
| Explanation.MonotonicWritesExplanationText | src/components/explanation/Explanation.tsx:22-31 | the view shows the explanation as "Operation n" / "Client i" labels and the verbatim strings, side by side |
| Explanation.ListToEnglishIsEnumeration | src/components/explanation/Explanation.tsx:8-20 | an empty list gives ""; otherwise the label, a space, then one item, "a and b", or the items comma-separated with ", and " before the last |
| Explanation.JoinThenSerialComma | src/components/explanation/Explanation.tsx:15-19 | joining the first n-1 items with ", " and appending ", and " plus the last item gives the serial-comma enumeration |
| Explanation.ListToEnglishBounds | src/components/explanation/Explanation.tsx:11-19 | non-empty output starts with the label and a space, and ends with the last item |
| Text.NatToStringRoundTrip | src/components/explanation/Explanation.tsx:57 | the decimal spelling of an id reads back as the same number |
| Text.Trim | src/backend/util.ts:41-43 | the result is a slice of the input bordered only by white space on either side, with no white space at either of its ends |
| Text.SplitSpec | src/backend/util.ts:42 | splitting at a separator gives pieces free of it that join back to the input |
| Text.SplitJoin | src/backend/util.ts:42 | splitting a separator-free join gives back the pieces |
| Timeline.CheckLengths | src/backend/util.ts:48-56 | success iff all lines have the first line's length, returning them unchanged; otherwise the error names the first mismatching line, its length and the expected one |
| Timeline.ExtractLines | src/backend/util.ts:39-59 | the trimmed, split, trimmed lines (never zero of them) come back iff they share one length, else the first mismatch is reported |
| Timeline.RawLinesAreTrimmedPieces | src/backend/util.ts:40-43 | every extracted line is free of newlines and has no white space at either end |
| Timeline.MatchTokenSpellsToken | src/backend/util.ts:132 | the anchored matcher accepts exactly `[`, an upper-case name, `:`, a lower-case variable, `<-` or `->`, optional white space, a digit and `]` |
| Timeline.ParseLine | src/backend/util.ts:126-160 | every operation is a Read or Write of the line's client with isHistory set, a one-letter upper-case name and a one-digit value; its times are columns inside the line with end >= start + 7; operations are disjoint and come left to right |
| Timeline.ScanIsSound | src/backend/util.ts:133-157 | every parsed operation is the operation of the token that starts at its start column: name and digit from the token, Read iff its arrow is `->`, end = start + token length - 1 |
| Timeline.ScanIsComplete | src/backend/util.ts:133-135 | every token the scan does not skip over starts some parsed operation |
| Timeline.GenerateHistoryFromString | src/backend/util.ts:73-86 | fails iff line extraction fails, with the same error; otherwise client i's history is exactly the parse of line i |
| Timeline.ParsedHistoryShape | src/backend/util.ts:73-86 | parsed histories are shaped operations in time order, and well-formed when their names are unique |
| Timeline.FindByName | src/backend/util.ts:103-105 | returns the first index holding the name, or -1 iff no operation has it |
| Timeline.Resolve | src/backend/util.ts:101-112 | a parsed operation becomes the first history operation of the same name, or itself turned into a Visibility |
| Timeline.SerializeFrom | src/backend/util.ts:95-115 | succeeds iff no line beyond the last history holds a token, giving one serialization per line; otherwise the error names the first such line |
| Timeline.SerializeFromResolves | src/backend/util.ts:95-115 | on success, serialization i is line i parsed and resolved against history i, which exists |
| Timeline.SerializedEntriesAreOriginalOrVisibility | src/backend/util.ts:95-115 | every entry of serialization i is an operation of history i or a Visibility of client i |
| Timeline.FullSerializationSpec | src/backend/util.ts:88-118 | succeeds iff the diagram's lines share one length and no line without a matching history holds a token; then there is one serialization per line and every entry of serialization i is an operation of history i or a Visibility of client i; otherwise the error is the first length mismatch or, lengths agreeing, the first line with tokens but no history |
| Diagrams.SortByStart | src/backend/util.ts:164 | the result is a permutation of the input in non-decreasing start-time order |
| Diagrams.SortIsStable | src/backend/util.ts:164 | operations with equal start times keep their relative order |
| Diagrams.SortOperations | src/backend/util.ts:162-168 | each client's list is sorted, stably, as a permutation of itself |
| Diagrams.FirstTooShort | src/backend/util.ts:181-190 | reports the first operation that lasts less than the minimum, or nothing iff all are long enough |
| Diagrams.RenderSucceedsIffFits | src/backend/util.ts:194-203 | rendering succeeds iff every operation starts at or after the end of the previous token, so that no padding count is negative |
| Diagrams.RenderPlacesTokens | src/backend/util.ts:194-203 | each operation's token is found at column startTime of the rendered line |
| Diagrams.RenderEndsWithLastToken | src/backend/util.ts:194-203 | a rendered line ends exactly where its last token ends |
| Diagrams.RenderAll | src/backend/util.ts:192-220 | all lines render iff each one does, giving each client's line in client order; otherwise the error is that of the first line that does not render |
| Diagrams.Longest | src/backend/util.ts:223-226 | the maximum line length: it bounds every line and is attained, or 0 for no lines |
| Diagrams.PadTo | src/backend/util.ts:227-232 | every line keeps its text and is extended with dashes to the common length |
| Diagrams.DiagramLines | src/backend/util.ts:179-232 | succeeds iff every serialization operation is long enough and every history and serialization line renders, giving one line per client; the error is the first too-short serialization operation, else the first history line's that does not render, else the first serialization line's |
| Diagrams.DiagramLinesArePadded | src/backend/util.ts:222-232 | each returned line is that client's rendered line padded with dashes to the longest rendered length |
| Diagrams.AsciiDiagramsSucceed | src/backend/util.ts:175-238 | drawing succeeds iff every serialization operation lasts at least the minimum and, on every history and serialization line, each operation starts at or after the end of the previous token |
| Diagrams.AsciiDiagramsError | src/backend/util.ts:181-218 | on failure the error is the first too-short serialization operation; failing that, an operation of the first history line that does not fit; failing that, one of the first serialization line that does not fit |
| Diagrams.AsciiDiagramsSplitBack | src/backend/util.ts:222-237 | when no name holds a line feed, splitting each output string at line feeds gives one line per client, that client's drawing padded with hyphens to the longest drawing of both diagrams; with no client the string is empty |
| Diagrams.LineRoundTrip | src/backend/util.ts:194-203 | a drawable, non-overlapping line of operations renders, and re-parsing it with any dash padding recovers the names, values, Read-versus-other kind and start times; the owner becomes the line's client and the end the token's last column |

## Left out

- The Solid user interface, `opId.ts`, the animation declarations and the test file: they are not part of this model.
- OrderFacts.HistoryIdentifiedByKey: the identity invariant is stated for histories only, because serializations may repeat a Visibility name within one client.
- JavaScript regular expressions and `parseInt`: the token scanner is written out directly, as an anchored matcher that resumes after a match or one character on.
- Object identity in `indexOf` and `includes`: modelled as structural equality, which the identity invariant makes equivalent.
- Column positions: JavaScript counts UTF-16 code units and the model counts `char`s, so the two agree only for text without surrogate pairs.
- The `length === 0` branch of line extraction: `split` always returns at least one piece, so the branch cannot be reached from `Timeline.ExtractLines`; `Timeline.CheckLengths` keeps it, returning no lines for an empty list.
- HTML structure (`span`, `ul`, `li`) of the explanation view: only the text it shows is modelled, with list bullets placed side by side.
- The `Visiility` spelling of the enum and the `Visibility` used by the parser: both are the one `Visibility` variant.
- The list-of-references fragment kinds `operations` and `clients`: they are outside the declared union but rendered by the view, so they are modelled as fragment kinds.
- CausalFacts.EdgeKeyIsEdgeNames: stated only for space-free names, because pair keys are space-joined strings and names holding a space can collide.
- OrderFacts.SingleOrderCharacterization: stated only for non-empty, space-free names, because the joined name order also loses empty names; `OrderFacts.EmptyNameConflatesOrders` shows a collision.
- OrderFacts.RealTimeCharacterization: stated only for space-free names, for the pair-key reason.
- CausalFacts.SerializationFollowsReads: stated only for space-free names in the history and the serializations, for the pair-key reason.
- CausalFacts.WritesFollowReadsCharacterization: stated only for space-free names in the history and the serializations, for the pair-key reason.
- OrderFacts.SetifyPrecedes: stated only for space-free names in the serialization and in the pair's first operation, for the pair-key reason.
- OrderFacts.AbsentOperationFailsRealTime: stated only for space-free names in the history and the serializations, because it rests on `OrderFacts.RealTimeCharacterization`.
- OrderFacts.SequentialCharacterization and OrderFacts.LinearizableCharacterization: stated under the name conditions of the characterizations they combine.
- Diagrams.LineRoundTrip: covers one line with one-letter names and single-digit values. `Diagrams.AsciiDiagramsSplitBack` takes a diagram apart into its padded lines; the two are not combined into one whole-diagram lemma.
- Diagrams.SortByStart: `Array.prototype.sort` is modelled as a stable insertion sort; only its result matters here.
- Operation times are integers. The timeline editor can produce fractional start and end times, and `"-".repeat` truncates a fractional count (2.6 draws two hyphens, and a count between -1 and 0 draws none instead of throwing). Neither is modelled: `Diagrams.RenderFrom` fails whenever a start column lies left of the line's end.
- Text.IntToString: operation values and client ids are unbounded integers, while in JavaScript they are doubles: `${n}` spells 10^21 and above in exponent form, and integers above 2^53 lose precision. So `Text.IntToString`, the tokens `Diagrams.TokenText` draws and the "Client i" / "Operation n" labels agree with the program only below those bounds.
- Explanation.FragmentText: a list fragment's children are modelled as bullets, each a sequence of fragments, as the view renders them; the declared type is a flat fragment array.
- Exceptions are modelled as `Failure` values, which carry the data of the thrown message rather than its wording.
