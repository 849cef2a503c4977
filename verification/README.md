# Verification of the REXOS control and communication kernels

A Dafny model of the state-changing kernels of REXOS, with proofs about whole runs, whole documents and whole
searches. `dafny verify dfyconfig.toml` verifies the project.

| modules | what they model |
|---|---|
| `VoxelGrid`, `VoxelPaths`, `ScanLine`, `EffectorBoundaries` | the reachability bitmap of the delta robot: validity cache, walk along the border, fill of the inside |
| `StateMachine` | the equiplet state machine with its modes, transitions, rollback and forcing |
| `JsonText`, `JsonEscapes`, `JsonNode`, `JsonNumerals`, `JsonWriter`, `JsonLayout`, `JsonStripper`, `JsonParser`, `JsonMarks`, `JsonRoundTrip`, `JsonLazy` | libjson: escaping, numbers, printing, stripping, splitting and fetching, on whole values and on lazily fetched node objects |
| `JsonValidator`, `JsonGrammar`, `JsonStream`, `JsonFraming` | the validator with its language, and the stream framer of libjson |
| `SocketQueue`, `Md5`, `Multipart`, `Glob` | four kernels of mongoose |
| `CrateTracker` | the crate tracker and its event protocol |
| `Modbus` | the shadow registers of the modbus controller |
| `Wrappers` | what the others share |

The shape is the same everywhere. What the source does step by step is a method, in a class where the source
changes an object, with loops that follow the source's loops. The method is proved against a specification
function or a relation, and the theorems are lemmas about those.

## Reading the model

- A C string or a `json_string` is a `seq<char>`; bytes are characters below 256. `Undefined`, `Overrun` and
  `None` in the JSON modules stand for the places where the library reads outside its text, and for comments.
- The inverse kinematics is an arbitrary predicate on voxels, the result of a transition goal an arbitrary
  function of its number and kind, the check of an incomplete stream text and `hasChanged` are arbitrary predicates,
  and the MD5 block transform is an arbitrary function. Every theorem holds for all of them.
- What the bus of the modbus controller answers and which reads fail are arbitrary functions of the number of the frame
  or read, and `mg_read` may deliver any number of bytes. The bus keeps a log of the frames written to it.
- `RunTransition` follows the source in setting the first state again whether or not the rollback goal succeeds.

## Where the code is not what its text promises

- `hasInvalidNeighbours` is documented to say whether a voxel has unreachable neighbours. It is false for a voxel
  that is itself unreachable; the model follows the code.
- `generateBoundariesBitmap` checks that the centre is valid. The fill needs more: a centre that is not on the border
  (`BorderCentreLeaks`), and a walk that reaches the border around it, which it does not when the region has a cavity
  (`CavityLeaks`). `FillIsInterior` and `FillIsValidIff` say exactly when the fill is right. The scan needs a voxel size
  that fits, or an invalid voxel that stops it (`ScanIsRegular`).
- `E_STOP` allows neither stop nor shutdown, so forcing from above Safe never ends (`ForcingTerminates`).
- Parsing undoes printing except for an array whose only element is a null without text (`ParseUndoesPrint`).
- A byte 1 in a document is taken for a rewritten quote when an unfetched node is dumped, once any quote has been
  rewritten (`DumpedDocumentIff`, `ByteOneIsMistaken`).
- Equality compares kinds before it fetches and children after. A container text that cannot be split is a null once it
  is fetched, but the comparison sees a container of the children made before the fault. So equal elements can be found
  different (`KindsMislead`: `[1:2]` and a null) and different ones equal (`EmptyArrayMisleads`: `[1:2]` and `[]`).
  `LazyNode.IsEqualTo` says what the answer is in every case. Against a tree without such texts it is right if and only
  if the other tree has none either, or the tree is neither the other nor what is seen of it (`LazyNode.IsRightIff`).
- The stream framer does not follow escaped quotes (`EscapedQuoteMisleadsFraming`), although the parser does. `FramedIff`
  says which texts it frames all the same, by the balance of their brackets.
- The tracker sets flags on a new crate and inserts a copy whose constructor resets them. It can report a crate as
  moving that never entered (`StrictIffPrompt`).
- The multipart scanner finds a boundary only when at least one more byte follows it (`FirstIsFoundIff`), so it misses
  the delimiter at the end of a body (`LastDelimiterIsMissed`).
- `match_prefix` ignores whatever a pattern says behind `$`.
- The validator takes empty elements and values, and steps over the first character of a name behind a comma without
  looking at it (`JsonGrammar.ValidIff`).
- Shadows go stale after a lost answer or a broadcast (`CoherentIff`, `LostAnswerMisleads`, `BroadcastMisleads`), a shadowed
  broadcast may be skipped wrongly, and a 32-bit write at the last address may write register 0 (`StepIsPlainIff`).

## Model

| member | source | states |
|---|---|---|
| `EffectorBoundaries.EffectorBoundaries.constructor` | src/cpp/libraries/rexos_delta_robot/src/EffectorBoundaries.cpp:58-66 | the bitmap starts empty for every voxel size, and the centre lies in the box exactly when a voxel is not higher than the box |
| `EffectorBoundaries.EffectorBoundaries.IsValid` | src/cpp/libraries/rexos_delta_robot/src/EffectorBoundaries.cpp:178-223 | a query with or without the cache gives the kinematic answer, and every cache cell stays unknown or right |
| `EffectorBoundaries.EffectorBoundaries.HasInvalidNeighbours` | src/cpp/libraries/rexos_delta_robot/src/EffectorBoundaries.cpp:145-169 | true exactly for a valid voxel on the edge of the box or next to an invalid one; no query leaves the box |
| `EffectorBoundaries.EffectorBoundaries.NeighboursAreValid` | src/cpp/libraries/rexos_delta_robot/src/EffectorBoundaries.cpp:155-165 | the loops find an invalid voxel among the 27 exactly when there is one |
| `EffectorBoundaries.EffectorBoundaries.MarkIfBorder` | src/cpp/libraries/rexos_delta_robot/src/EffectorBoundaries.cpp:279-286 | one neighbour is marked exactly when it is an unmarked border voxel |
| `EffectorBoundaries.EffectorBoundaries.VisitNeighbours` | src/cpp/libraries/rexos_delta_robot/src/EffectorBoundaries.cpp:271-290 | exactly the unmarked border voxels among the 26 neighbours are marked, and exactly those are pushed |
| `EffectorBoundaries.EffectorBoundaries.ScanRight` | src/cpp/libraries/rexos_delta_robot/src/EffectorBoundaries.cpp:242-262 | the scan ends on the last valid voxel of the row before the first invalid one or the edge of the box, which is a border voxel, and marks only that one |
| `EffectorBoundaries.EffectorBoundaries.FirstStop` | src/cpp/libraries/rexos_delta_robot/src/EffectorBoundaries.cpp:242-260 | the loop stops behind that voxel |
| `EffectorBoundaries.EffectorBoundaries.WalkBorder` | src/cpp/libraries/rexos_delta_robot/src/EffectorBoundaries.cpp:264-291 | terminates with the bitmap holding exactly what 26-neighbour steps through border voxels reach from the start |
| `EffectorBoundaries.EffectorBoundaries.ExpandVoxel` | src/cpp/libraries/rexos_delta_robot/src/EffectorBoundaries.cpp:305-323 | marks and pushes exactly the unmarked voxels at the six index distances; no index is negative or past the end |
| `EffectorBoundaries.EffectorBoundaries.FillInside` | src/cpp/libraries/rexos_delta_robot/src/EffectorBoundaries.cpp:296-324 | terminates with the extra marks being exactly what index steps over unmarked voxels reach from the centre, for any bitmap |
| `EffectorBoundaries.EffectorBoundaries.GenerateBoundariesBitmap` | src/cpp/libraries/rexos_delta_robot/src/EffectorBoundaries.cpp:228-325 | both phases together: fails exactly when the centre is invalid, otherwise the final bitmap is the border reached from where the scan stops plus the fill; with an interior centre whose surrounding border is reached it is all valid, the border plus the interior joined to the centre |
| `EffectorBoundaries.FillIsInterior` | src/cpp/libraries/rexos_delta_robot/src/EffectorBoundaries.cpp:296-324 | for an interior centre and any marks on the border, the fill marks exactly the interior voxels joined to the centre by face steps if and only if the border around those is marked; then every mark is valid |
| `EffectorBoundaries.FillIsValidIff` | src/cpp/libraries/rexos_delta_robot/src/EffectorBoundaries.cpp:296-324 | for any centre, with the border around the fill marked, every mark is valid if and only if no index neighbour of an expanded centre is invalid |
| `EffectorBoundaries.AllBorderSeals` | src/cpp/libraries/rexos_delta_robot/src/EffectorBoundaries.cpp:296-324 | a walk that reaches every border voxel of the box meets these conditions for every centre |
| `EffectorBoundaries.FlatIsFace` | src/cpp/libraries/rexos_delta_robot/src/EffectorBoundaries.cpp:305-314 | away from the edge of the box the six index neighbours are the six face neighbours: no row wraps |
| `EffectorBoundaries.WalkIsValid` | src/cpp/libraries/rexos_delta_robot/src/EffectorBoundaries.cpp:264-291 | everything the walk marks is a valid border voxel of the box |
| `EffectorBoundaries.BorderCentreLeaks` | src/cpp/libraries/rexos_delta_robot/src/EffectorBoundaries.cpp:237-239 | that the centre is valid, which is all that is checked, is not enough: a centre next to an invalid voxel makes the fill mark that voxel |
| `EffectorBoundaries.CavityLeaks` | src/cpp/libraries/rexos_delta_robot/src/EffectorBoundaries.cpp:264-324 | around a cavity the border is not reached by the walk from outside, and the fill from an interior centre goes through it and marks an invalid voxel |
| `VoxelGrid.DecodeOfIndex` | src/cpp/libraries/rexos_delta_robot/src/EffectorBoundaries.cpp:305-320 | decoding the flat index of a voxel of the box gives the voxel back |
| `VoxelGrid.IndexOfDecode` | src/cpp/libraries/rexos_delta_robot/src/EffectorBoundaries.cpp:317-320 | every index of the array decodes to a voxel of the box with that index |
| `VoxelGrid.IndexInjective` | src/cpp/libraries/rexos_delta_robot/src/EffectorBoundaries.cpp:279-281 | two voxels of the box never share a cell |
| `ScanLine.ScanStaysInBox` | src/cpp/libraries/rexos_delta_robot/src/EffectorBoundaries.cpp:242-262 | for every region the scan stays in the box if and only if the fractional part of 500 / voxelSize is 0 or at least one half |
| `ScanLine.ScanIsRegular` | src/cpp/libraries/rexos_delta_robot/src/EffectorBoundaries.cpp:242-262 | for one region it does so if and only if the voxel size has that property or an invalid voxel of the row stops the scan |
| `ScanLine.StopIsUnique` | src/cpp/libraries/rexos_delta_robot/src/EffectorBoundaries.cpp:242-262 | there is only one voxel on which the scan can stop, so the start of the walk is determined by the region |
| `ScanLine.DeployedVoxelSizeFits` | src/cpp/ros/delta_robot_node/src/DeltaRobotNode.cpp:549-550 | the voxel size that the node uses satisfies that condition |
| `ScanLine.SevenDoesNotFit` | src/cpp/libraries/rexos_delta_robot/src/EffectorBoundaries.cpp:242-262 | a voxel size of 7 does not: voxel 71 of the scan lies outside the box |
| `StateMachine.StateMachine.StatePossibleInMode` | src/cpp/libraries/rexos_statemachine/src/StateMachine.cpp:193-200 | the loop finds a state exactly when the table of the mode lists it |
| `StateMachine.StateMachine.constructor` | src/cpp/libraries/rexos_statemachine/src/StateMachine.cpp:41-52 | the machine starts in Safe and in normal mode |
| `StateMachine.StateMachine.SetState` | src/cpp/libraries/rexos_statemachine/src/StateMachine.cpp:221-227 | the state is set and the listener sees it |
| `StateMachine.StateMachine.SendGoal` | src/cpp/libraries/rexos_statemachine/src/StateMachine.cpp:154-156 | one more goal is sent, and its result is what the server reports |
| `StateMachine.StateMachine.RunTransition` | src/cpp/libraries/rexos_statemachine/src/StateMachine.cpp:149-171 | the loop over transition states: which states it enters in which order, where it ends and how many goals it sends, for every outcome |
| `StateMachine.StateMachine.ChangeState` | src/cpp/libraries/rexos_statemachine/src/StateMachine.cpp:138-176 | the new state, history and goal count; true exactly when the requested state was reached; terminates through the mutual recursion |
| `StateMachine.StateMachine.ForceToAllowedState` | src/cpp/libraries/rexos_statemachine/src/StateMachine.cpp:202-215 | terminates in the canonical state with the states entered on the way |
| `StateMachine.StateMachine.ChangeMode` | src/cpp/libraries/rexos_statemachine/src/StateMachine.cpp:178-191 | an unsupported mode changes nothing, any other is set and forced |
| `StateMachine.ChangeStateIsLegal` | src/cpp/libraries/rexos_statemachine/src/StateMachine.cpp:138-176 | from an allowed stable state: at most two goals, only allowed states entered, back to the source on failure, stable and allowed at the end, the target reached exactly on success |
| `StateMachine.ChangeModeIsCanonical` | src/cpp/libraries/rexos_statemachine/src/StateMachine.cpp:178-215 | changeMode ends in the highest stable state that the mode allows and that is not above the old one, one step down after the other, with one goal for each step and through allowed transition states only; an unsupported mode changes nothing |
| `StateMachine.ChangeStateSteps` | src/cpp/libraries/rexos_statemachine/src/StateMachine.cpp:53-67 | changeState goes exactly one step up or down, when the mode allows the transition state between, and arrives if and only if the goal succeeds; a failed setup or start is undone by shutdown or stop; any other request changes nothing |
| `StateMachine.PossibleIff` | src/cpp/libraries/rexos_statemachine/src/StateMachine.cpp:138-147 | which requests changeState takes up, by the ranks of the two states |
| `StateMachine.AllowedIff` | src/cpp/libraries/rexos_statemachine/src/StateMachine.cpp:69-75 | which stable and which transition states each mode allows |
| `StateMachine.ReachesIff` | src/cpp/libraries/rexos_statemachine/src/StateMachine.cpp:53-75 | with successful goals commands lead to every stable state in the modes normal, service and step, between Safe and Standby in error, from Normal to Standby in lock, and nowhere else |
| `StateMachine.CanonicalIsHighest` | src/cpp/libraries/rexos_statemachine/src/StateMachine.cpp:69-75 | the canonical state is the highest allowed stable state below a given one |
| `StateMachine.ForcingTerminates` | src/cpp/libraries/rexos_statemachine/src/StateMachine.cpp:202-215 | the forcing loop ends if and only if the mode is not E_STOP or the state is already Safe |
| `StateMachine.EStopForcingIsStuck` | src/cpp/libraries/rexos_statemachine/src/StateMachine.cpp:73-73 | in E_STOP above Safe no number of rounds changes the state |
| `StateMachine.RoundIsChangeState` | src/cpp/libraries/rexos_statemachine/src/StateMachine.cpp:202-215 | a round of the forcing loop is the call of changeState in its switch |
| `StateMachine.RunStaysLegal` | src/cpp/libraries/rexos_statemachine/src/StateMachine.cpp:138-191 | over every run of state and mode changes the machine rests in a stable state that its mode allows |
| `JsonText.UnfixString` | src/cpp/libraries/libjson/src/JSONWorker.cpp:507-557 | appends the escaped text, or the text itself when nothing needs escaping |
| `JsonText.FixString` | src/cpp/libraries/libjson/src/JSONWorker.cpp:431-453 | the loop unescapes, reports whether there was an escape, and tells where it would step past the end |
| `JsonText.UnescapeUndoesEscape` | src/cpp/libraries/libjson/src/JSONWorker.cpp:346-557 | unescaping the escaped text gives the text back for every byte string, also when the stripper rewrote the escaped quotes |
| `JsonText.EscapeIsClean` | src/cpp/libraries/libjson/src/JSONWorker.cpp:478-557 | escaped text is printable ASCII in which every quote follows an escaping backslash |
| `JsonText.MarkedHasNoQuote` | src/cpp/libraries/libjson/src/JSONWorker.cpp:217-218 | after the rewriting no quote is left inside a string |
| `JsonText.HexRoundTrip` | src/cpp/libraries/libjson/src/JSONWorker.cpp:312-336 | the two hexadecimal digits written for a byte read back as that byte |
| `JsonEscapes.EscapeCharIs` | src/cpp/libraries/libjson/src/JSONWorker.cpp:478-557 | which bytes are written by a short escape, as they are, or as two hexadecimal digits |
| `JsonEscapes.ShortIsRead` | src/cpp/libraries/libjson/src/JSONWorker.cpp:346-376 | each short escape of RFC 8259 is read as its character |
| `JsonEscapes.UnicodeIsRead` | src/cpp/libraries/libjson/src/JSONWorker.cpp:312-336 | a `u` escape is read as the byte of its last two digits |
| `JsonEscapes.HexIsRead` | src/cpp/libraries/libjson/src/JSONWorker.cpp:388-391 | an `x` escape is read as the byte of its digits, except at the end of the text |
| `JsonEscapes.OctalIsRead` | src/cpp/libraries/libjson/src/JSONWorker.cpp:338-344 | three octal digits are read modulo 256, except at the end of the text |
| `JsonEscapes.OtherIsRead` | src/cpp/libraries/libjson/src/JSONWorker.cpp:377-410 | a backslash before any other character is dropped |
| `JsonWriter.WriteName` | src/cpp/libraries/libjson/src/JSONWriter.cpp:70-76 | appends the quoted, escaped name, and nothing for an array child |
| `JsonWriter.Write` | src/cpp/libraries/libjson/src/JSONWriter.cpp:195-251 | appends exactly the rendered text of a fetched tree, in either layout |
| `JsonWriter.WriteChildren` | src/cpp/libraries/libjson/src/JSONWriter.cpp:78-102 | separators, line breaks and indentation around the rendered children |
| `JsonLayout.FormattedIsLaidOut` | src/cpp/libraries/libjson/src/JSONWriter.cpp:78-102 | formatted output is the unformatted output laid out in one pass: a line for each child and closing bracket, as many tabs as brackets are open, blanks around the colons, quotations as they are |
| `JsonStripper.RemoveWhiteSpace` | src/cpp/libraries/libjson/src/JSONWorker.cpp:168-239 | the loop computes the stripped text, and sets the global exactly when it rewrites an escaped quote |
| `JsonStripper.CopyQuotation` | src/cpp/libraries/libjson/src/JSONWorker.cpp:210-227 | the loop inside a quotation, with the escapes it copies and rewrites |
| `JsonStripper.RewritesIff` | src/cpp/libraries/libjson/src/JSONWorker.cpp:217-218 | the global is set exactly when rewriting makes a difference to the stripped text |
| `JsonStripper.StripNode` | src/cpp/libraries/libjson/src/JSONWorker.cpp:168-239 | stripping any layout of a printed tree gives the unformatted text, with escaped quotes rewritten when asked for |
| `JsonStripper.StripPrettyIsCompact` | src/cpp/libraries/libjson/src/JSONWriter.cpp:195-251 | stripping the formatted output without rewriting gives exactly the unformatted output, whatever white space the strings hold |
| `JsonStripper.WhiteSpaceIsFree` | src/cpp/libraries/libjson/src/JSONWorker.cpp:168-239 | blanks, tabs, line feeds and carriage returns may be put anywhere outside quotations without a difference |
| `JsonStripper.OutsideBoth` | src/cpp/libraries/libjson/src/JSONWorker.cpp:168-239 | the stripped text of two parts is that of the first followed by that of the second |
| `JsonStripper.StripperEnds` | src/cpp/libraries/libjson/src/JSONWorker.cpp:168-239 | a comment sign outside quotations starts a comment, and any other unprintable character ends the text |
| `JsonParser.FindNextRelevant` | src/cpp/libraries/libjson/src/JSONWorker.cpp:84-141 | the first occurrence of a character outside quotes and brackets |
| `JsonParser.SkipQuoteFrom` | src/cpp/libraries/libjson/src/JSONWorker.cpp:84-98 | the closing quote, for text whose escaped quotes are rewritten |
| `JsonParser.SkipBracketFrom` | src/cpp/libraries/libjson/src/JSONWorker.cpp:100-117 | the closing bracket that belongs to an opening one |
| `JsonNode.NumeralChars` | src/cpp/libraries/libjson/include/libjson/NumberToString.h:163-330 | a text that counts as a number holds no character that means something to the scanners |
| `JsonNumerals.NumericIff` | src/cpp/libraries/libjson/include/libjson/NumberToString.h:163-330 | which texts are numbers: digits with optional fraction and exponent, also behind a sign or a leading point, hexadecimal and octal ones, a zero with an exponent of a sign only, and nothing else |
| `JsonNumerals.JsonNumeralIsNumeric` | src/cpp/libraries/libjson/include/libjson/NumberToString.h:163-330 | every number of RFC 8259 is one |
| `JsonNumerals.NumeralIsParsed` | src/cpp/libraries/libjson/src/internalJSONNode.cpp:139-142 | an array of such a number parses to the array of that number |
| `JsonNumerals.NumberIff` | src/cpp/libraries/libjson/src/internalJSONNode.cpp:139-142 | a text is parsed to the number with that text exactly when it is one |
| `JsonNode.SameIff` | src/cpp/libraries/libjson/src/internalJSONNode.cpp:346-377 | two trees are equal exactly when they differ in nothing but the encoded flags and the texts of nulls |
| `JsonParser.DoArray` | src/cpp/libraries/libjson/src/JSONWorker.cpp:613-647 | the pieces of an array text, and for a text that is nullified those made before the fault |
| `JsonParser.DoNode` | src/cpp/libraries/libjson/src/JSONWorker.cpp:651-673 | the names and pieces of an object text, and for a text that is nullified those made before the fault |
| `JsonParser.SplitIsShorter` | src/cpp/libraries/libjson/src/JSONWorker.cpp:613-673 | every piece is shorter than the text it was cut from, so fetching a whole tree terminates |
| `JsonParser.FetchValue` | src/cpp/libraries/libjson/src/internalJSONNode.cpp:78-183 | the kind of a text and its children, fetched to the leaves |
| `JsonParser.ParseSimple` | src/cpp/libraries/libjson/src/internalJSONNode.cpp:122-143 | a text without quotes or brackets around it is a literal exactly when it is spelled in full and in lower case, a number, or else a null |
| `JsonParser.ParseUnclosed` | src/cpp/libraries/libjson/src/internalJSONNode.cpp:104-121 | a text whose closing quote or bracket is missing is a null |
| `JsonParser.MissingColon` | src/cpp/libraries/libjson/src/JSONWorker.cpp:657-658 | an object without a colon is a null |
| `JsonParser.ExtraColon` | src/cpp/libraries/libjson/src/JSONWorker.cpp:642-642 | an array of one element with a colon outside inner brackets and quotations is a null |
| `JsonParser.SpacedParse` | src/cpp/libraries/libjson/src/JSONWorker.cpp:11-81 | white space outside quotations makes no difference to what a text is parsed to |
| `JsonParser.ParseJson` | src/cpp/libraries/libjson/src/JSONWorker.cpp:11-81 | strip, check the outer brackets and build the root; the global is set exactly when a quote was rewritten |
| `JsonRoundTrip.FindPastValue` | src/cpp/libraries/libjson/src/JSONWorker.cpp:84-141 | scanning a printed value passes over it, whatever its strings and brackets hold |
| `JsonRoundTrip.SplitPrintedArray` | src/cpp/libraries/libjson/src/JSONWorker.cpp:613-647 | splitting a printed array gives the printed texts of its elements |
| `JsonRoundTrip.SplitPrintedObject` | src/cpp/libraries/libjson/src/JSONWorker.cpp:651-673 | splitting a printed object gives the marked names and printed texts of its members |
| `JsonRoundTrip.ParsePrinted` | src/cpp/libraries/libjson/src/JSONWorker.cpp:11-81 | parsing the printed text of any layout succeeds and gives the tree with only the encoded flags changed, except for an array with one textless null |
| `JsonRoundTrip.ParseUndoesPrint` | src/cpp/libraries/libjson/src/internalJSONNode.cpp:346-377 | the parsed tree equals the printed one under IsEqualTo if and only if no array has a textless null as its only element |
| `JsonRoundTrip.LoneBareNullIsLost` | src/cpp/libraries/libjson/src/JSONWriter.cpp:231-235 | the smallest document that does not come back |
| `JsonRoundTrip.PrintParsePrint` | src/cpp/libraries/libjson/src/JSONWriter.cpp:195-251 | printing, parsing and printing again gives the same text without exception |
| `JsonLazy.LazyNode.constructor` | src/cpp/libraries/libjson/src/internalJSONNode.cpp:78-145 | a new node keeps the raw text and stands for what parsing it yields |
| `JsonLazy.LazyNode.Root` | src/cpp/libraries/libjson/src/internalJSONNode.cpp:40-67 | a root keeps its text and is an unfetched container, or a null |
| `JsonLazy.LazyNode.FetchString` | src/cpp/libraries/libjson/src/internalJSONNode.cpp:159-167 | fetching a string changes nothing that the node stands for |
| `JsonLazy.LazyNode.FetchContainer` | src/cpp/libraries/libjson/src/internalJSONNode.cpp:169-183 | the children made by a fetch stand for the children of the value, and are new nodes; a malformed container becomes a null that keeps the children made before the fault |
| `JsonLazy.LazyNode.Fetch` | src/cpp/libraries/libjson/src/internalJSONNode.cpp:227-249 | fetching one node leaves every node of a heap with any sharing standing for the value it stood for, and a fetched node never changes again; what a comparison sees changes only for a text with a malformed container |
| `JsonLazy.LazyNode.Write` | src/cpp/libraries/libjson/src/JSONWriter.cpp:195-251 | whatever has been fetched, the output is that of the whole tree; only bytes 1 may have become quotes, and only once a quote has been rewritten; writing does nothing but fetch |
| `JsonLazy.LazyNode.WriteLeaf` | src/cpp/libraries/libjson/src/JSONWriter.cpp:195-251 | the same for a raw dump, a literal and a string |
| `JsonLazy.LazyNode.WriteChildren` | src/cpp/libraries/libjson/src/JSONWriter.cpp:78-102 | the same for the children of a fetched container |
| `JsonLazy.LazyNode.IsEqualTo` | src/cpp/libraries/libjson/src/internalJSONNode.cpp:346-377 | the answer is true if and only if what is seen of the two trees is equal: the values, with each malformed container read as a container of the children made before its fault; for whatever has been fetched |
| `JsonLazy.LazyNode.ListsAreEqual` | src/cpp/libraries/libjson/src/internalJSONNode.cpp:365-376 | the same for two lists of children, which are compared in order while the comparison fetches |
| `JsonLazy.LazyNode.IsRightIff` | src/cpp/libraries/libjson/src/internalJSONNode.cpp:346-377 | for a node in any state of fetching, that answer is right against a tree without malformed containers if and only if the node has none, or the tree is neither the value of the node nor what is seen of it |
| `JsonLazy.AnswerIsRightIff` | src/cpp/libraries/libjson/src/internalJSONNode.cpp:346-377 | the same for a text that has not been fetched |
| `JsonLazy.LazyNode.SplitLooks` | src/cpp/libraries/libjson/src/internalJSONNode.cpp:346-377 | of a node without malformed containers the value is seen, so among such nodes equality is decided rightly |
| `JsonLazy.SplitIsSeen` | src/cpp/libraries/libjson/src/JSONWorker.cpp:613-673 | of a text without malformed containers its value is seen |
| `JsonLazy.LazyNode.Nullify` | src/cpp/libraries/libjson/src/internalJSONNode.cpp:379-387 | the node becomes a fetched null with the text null |
| `JsonLazy.ParseLazily` | src/cpp/libraries/libjson/src/JSONWorker.cpp:11-81 | the root alone stands for the whole parsed document, what is seen of the text is seen of it, and the global is set exactly when a quote was rewritten |
| `JsonLazy.DumpPrinted` | src/cpp/libraries/libjson/src/JSONWriter.cpp:181-193 | dumping the raw text of a printed node prints it, except for bytes 1 once a quote has been rewritten |
| `JsonLazy.DumpIff` | src/cpp/libraries/libjson/src/JSONWriter.cpp:181-193 | dumping prints a value if and only if it holds no byte 1 or the global is not set, and then no quote of it was rewritten |
| `JsonLazy.DumpedDocumentIff` | src/cpp/libraries/libjson/src/JSONWorker.cpp:3-6 | a document parsed and dumped comes back if and only if it holds no byte 1, or neither it nor an earlier document had an escaped quote |
| `JsonLazy.KindsMislead` | src/cpp/libraries/libjson/src/internalJSONNode.cpp:348-354 | `[1:2]` and `null` are both null, but seen as different, so they compare as different |
| `JsonLazy.EmptyArrayMisleads` | src/cpp/libraries/libjson/src/internalJSONNode.cpp:365-376 | `[1:2]` and `[]` are different, a null and an empty array, but seen as the same, so they compare as equal |
| `JsonLazy.MisledElements` | src/cpp/libraries/libjson/src/JSONWorker.cpp:613-647 | these are delivered as the elements of `[[1:2],null]` and of `[[1:2],[]]` |
| `JsonLazy.LazyNode.StandsForLess` | src/cpp/libraries/libjson/src/internalJSONNode.cpp:104-144 | a node made from text that the library printed has no malformed container |
| `JsonLazy.NoneRewrittenIff` | src/cpp/libraries/libjson/src/JSONWorker.cpp:217-218 | no quote of a value is rewritten exactly when its text is the same with and without rewriting |
| `JsonLazy.HoldsOne` | src/cpp/libraries/libjson/src/internalJSONNode.cpp:227-249 | a node stands for one value only |
| `JsonLazy.ByteOneIsMistaken` | src/cpp/libraries/libjson/src/JSONWriter.cpp:181-193 | a document with an escaped quote and a raw byte 1, which its own parse makes the dump take for a quote |
| `JsonValidator.IsValidString` | src/cpp/libraries/libjson/src/JSONValidator.cpp:256-312 | the answer of the check and the place where it leaves the pointer |
| `JsonValidator.IsValidNumber` | src/cpp/libraries/libjson/src/JSONValidator.cpp:12-210 | the same for numbers |
| `JsonValidator.NumberDigits` | src/cpp/libraries/libjson/src/JSONValidator.cpp:12-210 | the loop over the digits, the decimal point and the exponent |
| `JsonValidator.IsValidMember` | src/cpp/libraries/libjson/src/JSONValidator.cpp:212-254 | the same for members, with the nesting limit |
| `JsonValidator.IsValidNamedObject` | src/cpp/libraries/libjson/src/JSONValidator.cpp:314-327 | the same for named members, including the first character that is stepped over unseen |
| `JsonValidator.IsValidObject` | src/cpp/libraries/libjson/src/JSONValidator.cpp:329-344 | the same for objects |
| `JsonValidator.IsValidArray` | src/cpp/libraries/libjson/src/JSONValidator.cpp:346-369 | the same for arrays |
| `JsonValidator.CheckRoot` | src/cpp/libraries/libjson/src/JSONValidator.cpp:371-387 | the root is accepted exactly when its check passes and stops at the terminator |
| `JsonValidator.ValidNumeral` | src/cpp/libraries/libjson/src/JSONValidator.cpp:12-210 | every numeral that the parser accepts validates up to its end |
| `JsonValidator.ValidateValue` | src/cpp/libraries/libjson/include/libjson/JSONValidator.h:8-15 | a printed value passes, leaving the pointer behind it, if and only if it does not nest too deep |
| `JsonValidator.PrintedTextValidates` | src/cpp/libraries/libjson/src/JSONValidator.cpp:371-387 | the unformatted output of a document is accepted, up to its terminator, if and only if its containers nest at most 128 deep |
| `JsonGrammar.ValidIff` | src/cpp/libraries/libjson/src/JSONValidator.cpp:12-387 | the validator accepts exactly the texts of the syntax trees of `JsonGrammar` that nest at most 128 deep, for every text |
| `JsonGrammar.MemberPasses` | src/cpp/libraries/libjson/src/JSONValidator.cpp:212-254 | a good member in front of a delimiter is accepted as a whole |
| `JsonGrammar.MemberSound` | src/cpp/libraries/libjson/src/JSONValidator.cpp:212-254 | what is accepted as a member is a good one |
| `JsonStream.JsonStream.PushText` | src/cpp/libraries/libjson/src/JSONStream.cpp:27-70 | one push: the new buffer, state and delivered objects |
| `JsonStream.JsonStream.constructor` | src/cpp/libraries/libjson/src/JSONStream.cpp:8-10 | a new stream is empty and accepts text |
| `JsonStream.JsonStream.Parse` | src/cpp/libraries/libjson/src/JSONStream.cpp:91-120 | the erase loop hands out the framed objects up to the limit and checks what is left |
| `JsonStream.JsonStream.FindNext` | src/cpp/libraries/libjson/src/JSONStream.cpp:72-89 | the closing bracket that belongs to an opening one |
| `JsonStream.FramesSplit` | src/cpp/libraries/libjson/src/JSONStream.cpp:91-120 | the objects of a text cut in two are those of the first part followed by those of its rest with the second |
| `JsonStream.DeliveredByRun` | src/cpp/libraries/libjson/src/JSONStream.cpp:27-120 | a run without error has delivered exactly the objects of everything pushed, any run an initial part of them |
| `JsonStream.FramingIsChunkIndependent` | src/cpp/libraries/libjson/src/JSONStream.cpp:27-120 | two ways of pushing the same text without error deliver the same objects and leave the same rest |
| `JsonStream.NoErrorIff` | src/cpp/libraries/libjson/src/JSONStream.cpp:91-120 | a run is without error if and only if no push completes more than 128 objects and what each push leaves passes the check from its first bracket on |
| `JsonStream.LastPush` | src/cpp/libraries/libjson/src/JSONStream.cpp:91-120 | one push hands out the objects that it completes, up to 128, also when it ends in an error |
| `JsonStream.ErrorIsFinal` | src/cpp/libraries/libjson/src/JSONStream.cpp:27-70 | after an error nothing more is taken in |
| `JsonFraming.FramedHasEvenQuotes` | src/cpp/libraries/libjson/src/JSONStream.cpp:72-89 | any text that is framed as a whole has an even number of quotes |
| `JsonFraming.FramedIff` | src/cpp/libraries/libjson/src/JSONStream.cpp:72-120 | a text without NUL is framed as a whole if and only if it stands in brackets, has an even number of quotes, and the brackets inside it and outside quotations, escapes not followed, are a sequence of groups, each of which starts with an opening bracket whose kind comes to balance at the last character and not before |
| `JsonFraming.GroupsAreSkipped` | src/cpp/libraries/libjson/src/JSONStream.cpp:72-120 | before a closing bracket the search skips exactly the texts of brackets that are a sequence of such groups |
| `JsonFraming.FlatIsFramedIff` | src/cpp/libraries/libjson/src/JSONStream.cpp:72-120 | a document whose only brackets are its own is framed if and only if it has an even number of quotes |
| `JsonFraming.QuietIsFramed` | src/cpp/libraries/libjson/src/JSONStream.cpp:72-120 | documents of any depth are framed when the escaped quotes of each string come in pairs with no bracket between them |
| `JsonFraming.OneByOneIff` | src/cpp/libraries/libjson/src/JSONStream.cpp:91-120 | texts in brackets sent one after the other come out one by one if and only if each is framed |
| `JsonFraming.PrintedDocumentsAreFramed` | src/cpp/libraries/libjson/src/JSONStream.cpp:91-120 | printed documents come out of the stream one by one if and only if each has an even number of quotes, escaped ones included, and brackets outside quotations that are a sequence of groups |
| `JsonFraming.EscapedQuoteMisleadsFraming` | src/cpp/libraries/libjson/src/JSONStream.cpp:72-89 | a document with an escaped quote of which a part is delivered |
| `SocketQueue.Queue.Produce` | src/cpp/tools/equiplet_scada/src/mongoose.c:4955-4973 | a full queue makes the master wait and changes nothing, otherwise the socket goes to the end |
| `SocketQueue.Queue.constructor` | src/cpp/tools/equiplet_scada/src/mongoose.c:493-497 | a new queue is empty |
| `SocketQueue.Queue.Consume` | src/cpp/tools/equiplet_scada/src/mongoose.c:4873-4900 | an empty queue makes the worker wait and changes nothing, otherwise the oldest socket is taken, also when the positions wrap |
| `SocketQueue.PutAppends` | src/cpp/tools/equiplet_scada/src/mongoose.c:4964-4966 | writing at the head position appends to the queue |
| `SocketQueue.TakeRemoves` | src/cpp/tools/equiplet_scada/src/mongoose.c:4885-4894 | reading at the tail position and wrapping removes the first element |
| `SocketQueue.StepKeepsInv` | src/cpp/tools/equiplet_scada/src/mongoose.c:4873-4973 | every step of the master or of a worker, spurious wake-ups included, keeps the invariant of the pool |
| `SocketQueue.NoLostWakeUp` | src/cpp/tools/equiplet_scada/src/mongoose.c:4873-4973 | in every interleaving a sleeping worker is not needed, a sleeping master faces a full queue, and queued work has a worker awake |
| `SocketQueue.SocketsAreConserved` | src/cpp/tools/equiplet_scada/src/mongoose.c:4873-4973 | every accepted socket is handed over once and in order, or still queued, or held by the master |
| `SocketQueue.ServedInOrder` | src/cpp/tools/equiplet_scada/src/mongoose.c:4873-4905 | in every interleaving each check by a worker that finds the queue not empty hands over one socket and nothing else does: after n of them the first n sockets accepted have been handed over |
| `SocketQueue.QueueCanBeServed` | src/cpp/tools/equiplet_scada/src/mongoose.c:4873-4905 | in every state of every run checks by workers that are awake can hand over all that is queued, with no further wake-up of a worker |
| `Md5.Context.constructor` | src/cpp/tools/equiplet_scada/src/mongoose.c:2061-2069 | a new context has absorbed the empty message |
| `Md5.Context.Update` | src/cpp/tools/equiplet_scada/src/mongoose.c:2153-2187 | absorbing data after a message is absorbing their concatenation |
| `Md5.Context.Count` | src/cpp/tools/equiplet_scada/src/mongoose.c:2156-2160 | the two words of the bit count with their carry and the bits shifted out |
| `Md5.Context.Blocks` | src/cpp/tools/equiplet_scada/src/mongoose.c:2176-2186 | whole blocks are transformed and the rest is buffered |
| `Md5.Context.PadBlock` | src/cpp/tools/equiplet_scada/src/mongoose.c:2189-2208 | the padding, in one block or in two |
| `Md5.Context.Final` | src/cpp/tools/equiplet_scada/src/mongoose.c:2189-2217 | the digest of the whole message as RFC 1321 defines it over the padded message; the context is cleared |
| `Md5.MgMd5` | src/cpp/tools/equiplet_scada/src/mongoose.c:2233-2250 | the hash of the concatenation of the arguments, however the text is divided among them |
| `Md5.UpdateAll` | src/cpp/tools/equiplet_scada/src/mongoose.c:2241-2244 | absorbing the arguments one after the other is absorbing their concatenation |
| `Md5.BinToStr` | src/cpp/tools/equiplet_scada/src/mongoose.c:2222-2230 | two hexadecimal digits for each byte |
| `Md5.CountBits` | src/cpp/tools/equiplet_scada/src/mongoose.c:2156-2160 | the two words are the bit length modulo 2^64 after every update |
| `Md5.FoldAppend` | src/cpp/tools/equiplet_scada/src/mongoose.c:2176-2182 | transforming one more block extends the fold over the blocks |
| `Md5.PadInjective` | src/cpp/tools/equiplet_scada/src/mongoose.c:2189-2210 | messages below 2^61 bytes with the same padded text are the same |
| `Md5.PadIs` | src/cpp/tools/equiplet_scada/src/mongoose.c:2189-2210 | the padding of RFC 1321 byte for byte: 0x80, zeros up to eight bytes before the end of a block, and the number of bits, low-order byte first |
| `Md5.InitialBytes` | src/cpp/tools/equiplet_scada/src/mongoose.c:2061-2069 | the initial words are those of RFC 1321 |
| `Md5.BytesAre` | src/cpp/tools/equiplet_scada/src/mongoose.c:2210-2217 | the four words of the digest are put out in order, low-order byte first |
| `Md5.HexReads` | src/cpp/tools/equiplet_scada/src/mongoose.c:2222-2230 | the two digits of each byte read back as the byte, in lower case |
| `Multipart.Upload.FindBoundary` | src/cpp/tools/equiplet_scada/src/mongoose.c:4152-4154 | the first place in the buffer where the delimiter stands with a byte behind it, or that there is none |
| `Multipart.Upload.constructor` | src/cpp/tools/equiplet_scada/src/mongoose.c:4136-4139 | the buffer starts with the bytes behind the headers |
| `Multipart.Connection.Read` | src/cpp/tools/equiplet_scada/src/mongoose.c:4171-4171 | a read delivers the next bytes of the body, and none only at its end or on failure |
| `Multipart.Upload.WriteOut` | src/cpp/tools/equiplet_scada/src/mongoose.c:4156-4160 | fwrite and memmove: what is written and what stays buffered |
| `Multipart.Upload.ScanBuffer` | src/cpp/tools/equiplet_scada/src/mongoose.c:4151-4169 | one round: the file ends at the first delimiter of everything received, or nothing is lost and the tail is kept |
| `Multipart.Upload.WriteFile` | src/cpp/tools/equiplet_scada/src/mongoose.c:4149-4171 | when a boundary is found the file is what stands before its first occurrence and the buffer what stands behind it; until then written and buffered bytes are all bytes received; without a boundary the loop ends only at the end of the body or when a read has failed |
| `Multipart.ScanIsChunkIndependent` | src/cpp/tools/equiplet_scada/src/mongoose.c:4149-4171 | two outcomes for the same body agree on the boundary, the file and what is left |
| `Multipart.Upload.ReadAll` | src/cpp/tools/equiplet_scada/src/mongoose.c:4149-4171 | without a failing read a boundary is found if and only if the body has one, and the run ends in such an outcome for everything there was to read |
| `Multipart.ReadTwice` | src/cpp/tools/equiplet_scada/src/mongoose.c:4149-4171 | two runs of the loop over the same body, read in different pieces, agree on the boundary, the file and what is left |
| `Multipart.Extend` | src/cpp/tools/equiplet_scada/src/mongoose.c:4165-4169 | the kept tail is long enough: more data never makes a delimiter in what was written |
| `Multipart.FirstIsFoundIff` | src/cpp/tools/equiplet_scada/src/mongoose.c:4152-4154 | the first delimiter is found if and only if a byte follows it; at the end of the body none is found |
| `Multipart.LastDelimiterIsMissed` | src/cpp/tools/equiplet_scada/src/mongoose.c:4152-4154 | a body that ends with its delimiter, in which none is found |
| `Glob.MatchOne` | src/cpp/tools/equiplet_scada/src/mongoose.c:884-912 | for a pattern without bars, the length of the longest matching prefix, and -1 exactly when none matches |
| `Glob.MatchStar` | src/cpp/tools/equiplet_scada/src/mongoose.c:892-907 | the branch for a star: the longest match of the rest of the pattern |
| `Glob.MatchPrefix` | src/cpp/tools/equiplet_scada/src/mongoose.c:875-912 | with bars, the result of the first alternative that matches a character, else that of the last one; terminates |
| `Glob.AlternativesAreThePattern` | src/cpp/tools/equiplet_scada/src/mongoose.c:879-883 | the alternatives are the pattern cut at its bars |
| `Glob.LaterStartReachesAsFar` | src/cpp/tools/equiplet_scada/src/mongoose.c:892-907 | a star that takes as much as it can never costs length |
| `Glob.GreedyStarIsLongest` | src/cpp/tools/equiplet_scada/src/mongoose.c:892-907 | trying the lengths of a star downwards finds the longest match of the whole |
| `Glob.PositiveMeansSomeAlternative` | src/cpp/tools/equiplet_scada/src/mongoose.c:875-883 | the result is positive, which is what callers test, exactly when some alternative matches a character |
| `Glob.ResultIsUnique` | src/cpp/tools/equiplet_scada/src/mongoose.c:875-912 | the declarative meaning admits one result |
| `Glob.SinglesMatch` | src/cpp/tools/equiplet_scada/src/mongoose.c:887-910 | what the single characters of a pattern match |
| `Glob.ConcatenationMatches` | src/cpp/tools/equiplet_scada/src/mongoose.c:885-911 | a pattern after a pattern matches a text after a text, as long as no two stars come together |
| `CrateTracker.CrateTracker.Update` | src/cpp/libraries/rexos_vision/src/CrateTracker.cpp:56-126 | what is known of a crate and its events depend on its own sightings only, whatever else is in the list and in whatever order the map is walked |
| `CrateTracker.CrateTracker.constructor` | src/cpp/libraries/rexos_vision/src/CrateTracker.cpp:45-47 | a new tracker knows no crate |
| `CrateTracker.CrateTracker.SweepCrate` | src/cpp/libraries/rexos_vision/src/CrateTracker.cpp:136-159 | one unseen crate: its new counter, its events and whether it is to be removed |
| `CrateTracker.CrateTracker.MarkAll` | src/cpp/libraries/rexos_vision/src/CrateTracker.cpp:59-62 | every crate is marked for removal |
| `CrateTracker.CrateTracker.SeeCrate` | src/cpp/libraries/rexos_vision/src/CrateTracker.cpp:64-123 | one sighting: the new flags, counter, points and events of that crate, and no other crate changes |
| `CrateTracker.CrateTracker.RemoveUntrackedCrates` | src/cpp/libraries/rexos_vision/src/CrateTracker.cpp:133-165 | unseen crates count down, report and disappear; no other crate changes |
| `CrateTracker.CrateTracker.GetCrate` | src/cpp/libraries/rexos_vision/src/CrateTracker.cpp:175-183 | a crate is returned exactly when it has entered |
| `CrateTracker.RunFollows` | src/cpp/libraries/rexos_datatypes/src/Crate.cpp:165-174 | in every run the events of a crate follow the protocol and its reported state is what they say |
| `CrateTracker.StayAlternates` | src/cpp/libraries/rexos_vision/src/CrateTracker.cpp:56-165 | between in and out the events are (moving moved)* moving, and no second in |
| `CrateTracker.OutEndsStay` | src/cpp/libraries/rexos_vision/src/CrateTracker.cpp:133-165 | every out has an in before it with no other out between |
| `CrateTracker.InsAreSeparated` | src/cpp/libraries/rexos_vision/src/CrateTracker.cpp:103-119 | two ins have an out between them |
| `CrateTracker.OutAfterStableFrames` | src/cpp/libraries/rexos_vision/src/CrateTracker.cpp:133-165 | a stable entered crate that goes unseen is out after exactly max(1, stableFrames) frames |
| `CrateTracker.EntersAtOnce` | src/cpp/libraries/rexos_vision/src/CrateTracker.cpp:66-76 | a crate seen in two frames without a change enters with the second, whatever stableFrames is |
| `CrateTracker.SettlesAfter` | src/cpp/libraries/rexos_vision/src/CrateTracker.cpp:98-123 | a crate that is not stable waits through unchanged and unseen frames for exactly max(1, framesLeft) frames, and the last of them says whether it moved, entered or left |
| `CrateTracker.MovesThenSettles` | src/cpp/libraries/rexos_vision/src/CrateTracker.cpp:82-119 | a changed crate that stays in view gets its moved, or its in, after exactly max(1, stableFrames) unchanged frames |
| `CrateTracker.StableStaysQuiet` | src/cpp/libraries/rexos_vision/src/CrateTracker.cpp:98-98 | a stable crate that stays in view unchanged causes no event |
| `CrateTracker.StrayMoving` | src/cpp/libraries/rexos_vision/src/CrateTracker.cpp:82-86 | with two stable frames or more a crate can report moving without having been in |
| `CrateTracker.StrictIffPrompt` | src/cpp/libraries/rexos_vision/src/CrateTracker.cpp:56-165 | no run reports a moving outside of a stay if and only if there is at most one stable frame |
| `Modbus.ShadowAddressIsInjective` | src/cpp/libraries/rexos_modbus/src/ModbusController.cpp:112-114 | no two registers share a shadow, negative addresses included |
| `Modbus.ShadowAddressIsExtended` | src/cpp/libraries/rexos_modbus/src/ModbusController.cpp:112-114 | a shadow address is slave and address with the sign extended to 64 bits |
| `Modbus.ModbusController.GetShadow` | src/cpp/libraries/rexos_modbus/src/ModbusController.cpp:125-133 | the shadow of a register, if it has one |
| `Modbus.ModbusController.constructor` | src/cpp/libraries/rexos_modbus/src/ModbusController.cpp:50-53 | a new controller has no shadows |
| `Modbus.Bus.Write` | src/cpp/libraries/rexos_modbus/src/ModbusController.cpp:177-191 | a write is applied, refused or lost, as the environment wishes, and logged; a slave that lacks a register of it refuses, or drops it when it is a broadcast |
| `Modbus.Bus.Read` | src/cpp/libraries/rexos_modbus/src/ModbusController.cpp:319-329 | a read fails exactly when the bus fails or a register is missing, and otherwise gives the registers |
| `Modbus.ModbusController.WriteU16` | src/cpp/libraries/rexos_modbus/src/ModbusController.cpp:166-196 | the registers, the shadows, the exception and the frame sent by a 16-bit write, for every answer of the bus |
| `Modbus.ModbusController.WriteU16Array` | src/cpp/libraries/rexos_modbus/src/ModbusController.cpp:206-233 | the same for an array, with its length limit |
| `Modbus.ModbusController.WriteU32` | src/cpp/libraries/rexos_modbus/src/ModbusController.cpp:243-282 | the same for a 32-bit write, which sends both words, one or none, and none exactly when both are in shadow |
| `Modbus.ModbusController.SetShadow` | src/cpp/libraries/rexos_modbus/src/ModbusController.cpp:142-156 | one shadow is set |
| `Modbus.ModbusController.ReadU32` | src/cpp/libraries/rexos_modbus/src/ModbusController.cpp:346-362 | the two words of the registers, joined, unless the read fails |
| `Modbus.SentIff` | src/cpp/libraries/rexos_modbus/src/ModbusController.cpp:243-282 | a word is sent exactly when its shadow does not show it |
| `Modbus.SucceedsIff` | src/cpp/libraries/rexos_modbus/src/ModbusController.cpp:166-282 | a write succeeds exactly when there is nothing to send or the frame is answered, a broadcast also when the answer is lost; more than ten words are never sent |
| `Modbus.HighWordFirst` | src/cpp/libraries/rexos_modbus/src/ModbusController.cpp:248-250 | after a successful 32-bit write the high word is in the first register |
| `Modbus.StepIsPlainIff` | src/cpp/libraries/rexos_modbus/src/ModbusController.cpp:166-282 | any write leaves the registers as it would without shadows, except for a 32-bit write at the last address and a shadowed broadcast, where the exact condition is given |
| `Modbus.LastAddressIsPlainIff` | src/cpp/libraries/rexos_modbus/src/ModbusController.cpp:243-282 | a shadowed 32-bit write at the last address differs exactly when one word is skipped and the register of the other has another value |
| `Modbus.BroadcastIsPlainIff` | src/cpp/libraries/rexos_modbus/src/ModbusController.cpp:166-282 | a shadowed broadcast differs exactly when it arrives and a slave with both registers does not hold a skipped word, or one with only one of them, or at the last address, takes a word that it would not take with the other |
| `Modbus.CoherentIff` | src/cpp/libraries/rexos_modbus/src/ModbusController.cpp:166-282 | any write, to one slave or to all, keeps the shadows right if and only if it is a shadowed one to a slave that is answered, or does not arrive, or sends what the shadows show |
| `Modbus.RunIsPlainIff` | src/cpp/libraries/rexos_modbus/src/ModbusController.cpp:112-282 | over every run of any writes and answers, the shadows are right and the registers as if no write had been skipped at every point, if and only if each round satisfies the two conditions |
| `Modbus.RunIsPlain` | src/cpp/libraries/rexos_motor/src/StepperMotor.cpp:209-212 | so it is in every run in which a register is always written with the shadow, to one slave and below the last address, or never |
| `Modbus.SuccessMeansWritten` | src/cpp/libraries/rexos_modbus/src/ModbusController.cpp:166-282 | a successful unicast write leaves its words in the registers, a failed one that was not applied changes nothing |
| `Modbus.ReadsLastWritten` | src/cpp/libraries/rexos_modbus/src/ModbusController.cpp:346-362 | readU32 returns the last 32-bit value successfully written to its registers, whatever other writes follow |
| `Modbus.SecondWriteIsSkipped` | src/cpp/libraries/rexos_modbus/src/ModbusController.cpp:243-282 | a second shadowed write of the same value never uses the bus, provided that a 16-bit broadcast was answered |
| `Modbus.LostAnswerMisleads` | src/cpp/libraries/rexos_modbus/src/ModbusController.cpp:184-191 | a lost answer leaves a stale shadow |
| `Modbus.BroadcastMisleads` | src/cpp/libraries/rexos_modbus/src/ModbusController.cpp:184-195 | a broadcast to a shadowed register leaves a stale shadow |
| `Modbus.RepeatedBroadcastIsSkipped` | src/cpp/libraries/rexos_modbus/src/ModbusController.cpp:170-175 | a shadowed broadcast is skipped although a slave has been written since |
| `Modbus.LastAddressWraps` | src/cpp/libraries/rexos_modbus/src/ModbusController.cpp:265-269 | a 32-bit write at the last address can write its low word to register 0 |

## Left out

- EffectorBoundaries.EffectorBoundaries.ScanRight: the step along x uses exact real arithmetic, not doubles, and a scan that leaves the row is excluded, because the source then reads and marks cells of another row.
- EffectorBoundaries.EffectorBoundaries.GenerateBoundariesBitmap: voxels higher than the box leave a box without voxels, in which the source accesses cells that do not exist.
- StateMachine.StateMachine.ForceToAllowedState: E_STOP above Safe is excluded because the source does not terminate there, and stop and shutdown goals succeed as their servers report, because their entries have no rollback to fall back on.
- StateMachine.StateMachine.ChangeState: action servers, listeners and concurrent requests are not modelled.
- JsonParser.ParseJson: comments are not modelled; a text that holds one has an undefined result in the model.
- JsonParser.FetchValue: numbers are kept as their text, so `atof` and the formatting of numbers are not modelled, and equality of numbers is equality of their texts.
- JsonLazy.LazyNode.Write: stated for nodes whose unfetched texts are printed ones, because other texts are dumped as they are.
- JsonLazy.LazyNode.IsEqualTo: a node whose text has a malformed container stands at one place of the two trees only, because a second comparison would find it fetched, and the children made before a fault do not lead outside their text when they are fetched.
- JsonLazy.LazyNode.constructor: a name or string in which unescaping would step past the end leaves an arbitrary text.
- JsonWriter.Write: the wrap of the unsigned indentation at 0xFFFFFFFF levels is not modelled.
- JsonStream.JsonStream.Parse: the callbacks are the list of delivered objects, the check of an incomplete text is an arbitrary predicate, and exceptions out of the callback are not modelled.
- SocketQueue.NoLostWakeUp: covers the time before shutdown; the handshake through the stop flag is not modelled.
- Md5.Context.Final: the host is little-endian, and the round function is arbitrary.
- Multipart.Upload.WriteFile: headers, file names and opening of the file are not modelled, a write to the file does not fail, and a failing read consumes nothing.
- Glob.MatchPrefix: the character behind the end of the pattern is taken not to be a star, as for the bar, comma, equals sign or terminator that follows a pattern in every caller.
- CrateTracker.CrateTracker.Update: events carry no coordinates, since the bounding rectangle is computed with trigonometry.
- Modbus.ModbusController.WriteU16: waiting between writes is not modelled.
- `checkPath`, the inverse kinematics and the coordinate transformers: floating-point sampling and trigonometry.
- `isValidPartialRoot`, `JSONPreparse`, memory pools and iterators of libjson: switched off, unused or an ordinary array.
- The network, file, CGI, SSL and WebSocket parts of mongoose, and the clients and nodes around these libraries: calls into foreign code.
