# Verified model of the fwx traffic inspection

This project models the computational core of fanchmwrt's `fwx` kernel module and of its daemon `fwxd`, and proves
what that code keeps over every input, every run and every interleaving of its hooks, timers and messages.
`dafny verify dfyconfig.toml` checks everything.

Code that changes state in place is modelled by classes and methods with the same loops and exits, each proved
against a function of its inputs or of the state before it; what the program promises is then proved about those
functions, and so about the methods. What the functions mean is also stated in raw fields, bytes and constants.

| file | what it models |
|---|---|
| `Gateway.dfy`, `GatewayRuns.dfy`, `GatewayLaws.dfy` | the verdict of the packet hook, what runs over many connections and clients keep, and what they decide in terms of the rules |
| `RecentList.dfy`, `ActiveLists.dfy` | the two bounded most-recently-used lists and the reference they refine |
| `CText.dfy`, `PortSpec.dfy`, `FeatureSyntax.dfy`, `FeaturePrint.dfy` | the signature language, its nested tokenizers, and its printer |
| `FeatureMatch.dfy`, `MatchLaws.dfy` | matching, the messages that change the signature list, and both together in terms of fields and bytes |
| `TlsScan.dfy`, `HttpScan.dfy`, `InspectionRuns.dfy` | the two payload scanners, and the hello bit over runs |
| `ClientTable.dfy`, `ClientRuns.dfy`, `ClientLaws.dfy`, `ClientHooks.dfy` | the client table on values, its runs, what they make of a client, and the hooks on objects |
| `PeriodReport.dfy`, `VisitReport.dfy` | the two-second timer, period traffic, activity, and the reported applications |
| `Bits.dfy`, `StatExclude.dfy`, `Words.dfy`, `NetWords.dfy` | which traffic is left out of the accounting, from text to bit masks |
| `TrafficRuns.dfy` | byte accounting over runs with that test in place |
| `Aggregation.dfy`, `Paging.dfy`, `TrafficWindow.dfy`, `TimeSpec.dfy` | the daemon's aggregation, paged queries, sample window and schedule strings |

Where the obvious claim is not what the code does, the code is kept and the claim gets its exact condition:

- A drop is final exactly for ids outside 1001 to 31999, so also for an unclassified connection; only a managed connection is accepted again, by a packet in the rule window that the rules accept (`DropLifted`, `DropFinal`). The window itself recurs every 2^32 ticks (`WindowInTime`).
- `total_client` counts additions and never falls (`CreatedIsLiveAndRemoved`).
- The expiry test compares a sum with the tick counter, so it is right exactly when both or neither wrap around; otherwise it removes a client that was just used or keeps an idle one (`IdleTestRight`, `IdleTestFails`).
- The client report clears the counts before it sorts by them; it names the most used applications only under the condition of `TopNCertain`.
- The last `;`-piece of a signature record is kept only as the sixth or the eighth (`RecordOfPieces`, `LastPieceKept`). The name in a signature line keeps its leading blank (`HeaderOfPrinted`).
- A port text whose elements are all malformed accepts every port, since no range is left (`NoRanges`, `MalformedAcceptsAll`; which elements are malformed says `ReadableElement`).
- The signature parser copies texts into buffers of fixed size. The contracts say exactly which lines overrun one, and promise nothing after that (`InitFeature`). Beside fields that are too long, these are dictionaries with MAX_POS_INFO_PER_FEATURE - 1 or more separators (`ParseDict`, `CrowdedFeatureFaults`), and features that fill the copy buffer, which the length test lets through (`PrintedLineFits`, `FillingFeatureFaults`).
- The URL of a request contains the HTTP version, and the host is right only with exactly one blank before it and none behind; `Host:ab` is read as `b` (`RequestRoundTrip`, `HostWithoutBlank`).
- A report whose text cannot be built has already cleared the visit counts: the bytes wait for the next report, the visits are lost (`VisitsCarried`).
- Server names longer than 250 bytes do not match the TLS pattern (`ServerNameIsCandidate`).
- The daemon's top list covers all applications exactly under the condition of `TopOfAllExactly`, loses no time exactly when all find a place (`NoTimeLost`), and else can miss the most used one (`OverflowMissesTop`).
- A prefix length is narrowed to 32 bits before it is checked, so lengths beyond that range can be accepted as other ones (`CidrOfPrinted`, `CidrOfHugeLength`).
- A slash without a prefix length behind it is read as the length 0, so the entry excludes all traffic (`CidrWithoutLength`).
- A second opening bracket in a signature line moves the start of the body but leaves its length (`BracketExamples`).
- A weekday word without a number reads as 0, Sunday (`WordWithoutNumber`).
- A request shorter than MIN_HTTP_DATA_LEN is ignored (`RequestRoundTrip`).

Constants that are defined in headers outside the repository stay symbolic: hash sizes are powers of two and list
capacities at least 1. Rule lookups, white lists, URL regular expressions, clocks, allocation results and JSON
arguments are inputs of each step. `qsort` and the kernel's `sort` are given by their contract: a permutation in
descending order.

## Model

| member | source | states |
|---|---|---|
| Gateway.Connection.Handle | patches/fanchmwrt/package/fcm/fwx/src/fwx_main.c:1502-1656 | whichever exit a packet takes, the verdict is a drop exactly when the action stored afterwards is set; id, action, both status bits and the visit records follow the transition that the run lemmas are about; the host list is touched exactly by inspected packets while recording is on, the application list only by those that are classified and not ignored |
| Gateway.Connection.Inspect | patches/fanchmwrt/package/fcm/fwx/src/fwx_main.c:1551-1647 | the inspection stage alone: what it leaves in the connection and in the visit records, and its verdict, agree with the same transition; at most one visit record is written |
| Gateway.Connection.ActionChanged | patches/fanchmwrt/package/fcm/fwx/src/fwx_main.c:1271-1291 | asks for a flip exactly when the packet is inside the 32-bit rule window and the application rules disagree with the stored action |
| Gateway.Client.UpdateAppInfo | patches/fanchmwrt/package/fcm/fwx/src/fwx_main.c:1125-1159 | counts one visit of one application and leaves all other records alone; fails exactly for ids that are not positive as signed numbers and for a new record without memory; the shown application changes at once, but for a web application only from its third connection on |
| Gateway.Client.CheckExpired | patches/fanchmwrt/package/fcm/fwx/src/fwx_client.c:338-364 | the sweep with removal during the iteration removes exactly the records idle for more than 300 seconds of unsigned time and changes no other |
| GatewayRuns.ClassifiedStays | patches/fanchmwrt/package/fcm/fwx/src/fwx_main.c:1502-1548 | over every run, a nonzero application id and the status bits that came with it never change |
| GatewayRuns.BlockedStays | patches/fanchmwrt/package/fcm/fwx/src/fwx_main.c:1542-1545 | over every run, a connection blocked before classification keeps its whole state |
| GatewayRuns.IgnoreSetOnce | patches/fanchmwrt/package/fcm/fwx/src/fwx_main.c:1584-1591 | in the life of a connection the ignore bit is assigned at most once, it is set exactly when it was assigned, and then the id is at least 1000 |
| GatewayRuns.DpiRunWitness | patches/fanchmwrt/package/fcm/fwx/src/fwx_main.c:1556-1571 | n inspections need a packet whose accounting total lies between n - 1 and the budget |
| GatewayRuns.DpiBudget | patches/fanchmwrt/package/fcm/fwx/src/fwx_main.c:1556-1571 | since accounting totals strictly increase, a connection is inspected at most MAX_DPI_PKT_NUM + 1 times in any run |
| GatewayRuns.BudgetFreezes | patches/fanchmwrt/package/fcm/fwx/src/fwx_main.c:1561-1562 | after the first packet whose total exceeds the budget, id and status bits stay what they are for the rest of every run |
| GatewayRuns.ActionOfClassified | patches/fanchmwrt/package/fcm/fwx/src/fwx_main.c:1520-1527 | after any run the action of a connection with 1000 < id < 32000 is the rule decision at the last packet inside a rule window, or the original action without such a packet; every other classified connection keeps its action |
| GatewayRuns.DropLifted | patches/fanchmwrt/package/fcm/fwx/src/fwx_main.c:1520-1527 | a packet lifts a drop if and only if the id is managed (1001 to 31999), the packet is in the rule window and the rules accept |
| GatewayRuns.DropFinal | patches/fanchmwrt/package/fcm/fwx/src/fwx_main.c:1520-1545 | a drop survives every run that can follow if and only if the id is not managed, whether 0, below 1001 or from 32000 on, or the rule window is empty; for a managed id a lifting packet is constructed |
| GatewayRuns.DropLiftedInRun | patches/fanchmwrt/package/fcm/fwx/src/fwx_main.c:1520-1545 | whenever a run leads from drop to accept, one particular packet of it lifted the drop in exactly that way |
| GatewayRuns.SecondPacketIdle | patches/fanchmwrt/package/fcm/fwx/src/fwx_main.c:1271-1291 | handling the same packet twice leaves a classified connection as handling it once does, but makes the same call of the visit recorder again, which counts once more |
| GatewayRuns.WindowInTime | patches/fanchmwrt/package/fcm/fwx/src/fwx_main.c:1275-1278 | the unsigned window is the first 30 seconds after the update while fewer than 2^32 ticks have passed, and in general opens again every 2^32 ticks |
| GatewayRuns.AfterConcat | patches/fanchmwrt/package/fcm/fwx/src/fwx_main.c:1502-1656 | runs compose |
| GatewayRuns.CountStep | patches/fanchmwrt/package/fcm/fwx/src/fwx_main.c:1137-1150 | one packet raises the connection counter of one application by at most one, and only while it classifies its connection as that application |
| GatewayRuns.EventStep | patches/fanchmwrt/package/fcm/fwx/src/fwx_main.c:1529-1533 | the same for every event of a system of many connections and clients, including expiry and removal of clients |
| GatewayRuns.ClassifiedForGood | patches/fanchmwrt/package/fcm/fwx/src/fwx_main.c:1582-1583 | a connection counted as classified still has that id in every later state |
| GatewayRuns.ClassifiedOnce | patches/fanchmwrt/package/fcm/fwx/src/fwx_main.c:1582-1583 | no connection is classified for two applications or for two clients |
| GatewayRuns.ConnCountBound | patches/fanchmwrt/package/fcm/fwx/src/fwx_main.c:1147-1150 | in every reachable state, through record expiry and client removal, conn_count is at most the number of connections classified as that application for that client |
| GatewayRuns.ConnCountBoundNow | patches/fanchmwrt/package/fcm/fwx/src/fwx_main.c:1147-1150 | the same bound by the connections that carry the id at present |
| GatewayRuns.CountedOnce | patches/fanchmwrt/package/fcm/fwx/src/fwx_main.c:1529-1533 | a connection makes the recorder count it at most once in its whole life, and only if it ends up classified |
| GatewayLaws.InspectedPacket | patches/fanchmwrt/package/fcm/fwx/src/fwx_main.c:1572-1632 | an inspected packet is dropped if and only if an application rule that is enabled names the client and the application found, or a client rule names the client, the client being on the white list of neither; the id is that application, and the ignore bit is set exactly by an ignored one from 1000 on |
| GatewayLaws.OtherPacket | patches/fanchmwrt/package/fcm/fwx/src/fwx_main.c:1502-1570 | any other packet keeps id and status, and revises the action exactly within 30 seconds, in unsigned ticks, of the last rule update and for ids from 1001 to 31999 |
| GatewayLaws.ActionOfRun | patches/fanchmwrt/package/fcm/fwx/src/fwx_main.c:1502-1656 | after every run a connection drops if and only if a rule dropped the last of its packets that was inspected or revised; which rule counts is told by the rule fields and by what inspection found |
| GatewayLaws.IdOfRun | patches/fanchmwrt/package/fcm/fwx/src/fwx_main.c:1572-1586 | after every run a connection carries an application id if and only if an inspected packet found it |
| GatewayLaws.RecorderCall | patches/fanchmwrt/package/fcm/fwx/src/fwx_main.c:1519-1647 | which packets are recorded, under which id, with which drop, and which of them as new connections |
| GatewayLaws.RecordOfCalls | patches/fanchmwrt/package/fcm/fwx/src/fwx_main.c:1125-1159 | after every sequence of recorder calls a record exists exactly for called ids and holds the number of calls, of drops and of new connections, the kind of the last new connection, and time and drop of the last call |
| GatewayLaws.NotRecorded | patches/fanchmwrt/package/fcm/fwx/src/fwx_main.c:1125-1140 | nothing is recorded for ids that are 0 or negative as signed numbers, nor for a new application without memory |
| GatewayLaws.KeptRecords | patches/fanchmwrt/package/fcm/fwx/src/fwx_client.c:338-364 | the sweep keeps exactly the records of the last 300 seconds of unsigned time, unchanged |
| GatewayLaws.CountRises | patches/fanchmwrt/package/fcm/fwx/src/fwx_main.c:1632-1639 | a connection counter rises if and only if a recorded packet of that client is inspected and finds an application from 1000 on that is not ignored and positive as a signed number |
| GatewayLaws.EventLaw | patches/fanchmwrt/package/fcm/fwx/src/fwx_main.c:1502-1656 | an event changes its own connection and its own client only, and in which way |
| RecentList.BoundedList.Update | patches/fanchmwrt/package/fcm/fwx/src/fwx_main.c:1978-2105 | the search loop with its early exit, move to front, eviction of the tail and insertion has the effect of one step of the list history |
| RecentList.BoundedList.MoveToFront | patches/fanchmwrt/package/fcm/fwx/src/fwx_main.c:2034 | the node at a position goes to the front, the others keep their order |
| RecentList.MostRecentUnique | patches/fanchmwrt/package/fcm/fwx/src/fwx_main.c:1965-2108 | "the N most recently used distinct keys, latest first" leaves no choice: two lists that satisfy it are equal |
| RecentList.MostRecentNested | patches/fanchmwrt/package/fcm/fwx/src/fwx_main.c:2044-2050 | the answer for a smaller capacity is a prefix of the answer for a larger one |
| RecentList.HistoryMostRecent | patches/fanchmwrt/package/fcm/fwx/src/fwx_main.c:1978-2105 | after every history with successful allocations the list is exactly the N most recently used distinct keys in recency order |
| RecentList.HistoryKept | patches/fanchmwrt/package/fcm/fwx/src/fwx_main.c:2042-2105 | after every history, also with failed allocations after an eviction, the list has no duplicate, stays within its capacity and in recency order, and every node carries the details of the last use of its key |
| RecentList.SmallerIsPrefix | patches/fanchmwrt/package/fcm/fwx/src/fwx_main.c:2044-2050 | on the same history the list for capacity c is a prefix of the list for any larger capacity |
| RecentList.StepMostRecent | patches/fanchmwrt/package/fcm/fwx/src/fwx_main.c:2034-2050 | one update takes the N most recent keys of a history to the N most recent keys of the longer history |
| RecentList.AddressesKept | patches/fanchmwrt/package/fcm/fwx/src/fwx_main.c:1985-1990 | after every history a node holds the last IPv6 addresses among the updates since its insertion, and 0 where there was none |
| ActiveLists.ActiveLists.UpdateApps | patches/fanchmwrt/package/fcm/fwx/src/fwx_main.c:1965-2108 | keeps the application list equal to what the history of flows makes of an empty list; flows without an id leave no trace |
| ActiveLists.ActiveLists.UpdateHosts | patches/fanchmwrt/package/fcm/fwx/src/fwx_main.c:2144-2261 | the same for the host list, keyed by the first 63 bytes of the host as a C string, the web host before the TLS name |
| ActiveLists.ActiveAppsAreMostRecent | patches/fanchmwrt/package/fcm/fwx/src/fwx_main.c:1965-2108 | after any run of flows the application list holds the most recent distinct nonzero ids |
| ActiveLists.ActiveHostsAreMostRecent | patches/fanchmwrt/package/fcm/fwx/src/fwx_main.c:2144-2261 | after any run of flows the host list holds the most recent distinct host keys |
| ActiveLists.ActiveLists.ListsShown | patches/fanchmwrt/package/fcm/fwx/src/fwx_main.c:1965-2261 | so the two objects, each with its own capacity, show the most recent distinct ids and hosts |
| ActiveLists.HostKeyLaw | patches/fanchmwrt/package/fcm/fwx/src/fwx_main.c:2157-2171 | a flow has a host if and only if a web host or a TLS name is not empty; the web host goes first, and the key is its text up to a zero byte and up to 63 bytes |
| ActiveLists.DetailLaw | patches/fanchmwrt/package/fcm/fwx/src/fwx_main.c:1982-2031 | what both lists copy from a flow, field by field |
| ActiveLists.AppTextLaw | patches/fanchmwrt/package/fcm/fwx/src/fwx_main.c:1995-2010 | host and URL of a web flow and the name of a TLS flow are copied up to a zero byte and up to 31 bytes |
| PortSpec.ValidateRangeValue | patches/fanchmwrt/package/fcm/fwx/src/fwx_main.c:156-175 | accepts exactly the texts of blanks, `!`, `-` and digits |
| PortSpec.ParseRangeValue | patches/fanchmwrt/package/fcm/fwx/src/fwx_main.c:177-212 | reads one element with its sign and bounds narrowed to 32 bits, and fails exactly on the malformed ones |
| PortSpec.ReadableElement | patches/fanchmwrt/package/fcm/fwx/src/fwx_main.c:177-212 | an element is well-formed if and only if it has only allowed characters and, without the exclamation mark and outer blanks, starts with a digit or, if it has a minus sign, is a number, a minus sign and the start of a number |
| PortSpec.ParsePortInfo | patches/fanchmwrt/package/fcm/fwx/src/fwx_main.c:214-244 | the single pass that starts at index 1 and stops one past the terminator collects the well-formed elements of the trimmed text in order; every read is at or before the terminator; it writes behind a buffer exactly when an element has 128 characters or more, or one of allowed characters finds the range array full |
| PortSpec.StoreRange | patches/fanchmwrt/package/fcm/fwx/src/fwx_main.c:228-242 | the same for one element |
| PortSpec.MatchPort | patches/fanchmwrt/package/fcm/fwx/src/fwx_main.c:246-281 | membership in the set: everything for no range; outside all negated ranges as soon as one is negated (positive ranges are then ignored); else in some range |
| PortSpec.ParseAndMatch | patches/fanchmwrt/package/fcm/fwx/src/fwx_main.c:214-281 | parsing a text and matching a port decides membership in the set that its well-formed elements stand for |
| PortSpec.NoRanges | patches/fanchmwrt/package/fcm/fwx/src/fwx_main.c:220-243 | no range is left if and only if the text is blank or every element is malformed |
| PortSpec.MalformedAcceptsAll | patches/fanchmwrt/package/fcm/fwx/src/fwx_main.c:250-251 | a text whose elements are all malformed, such as abc, accepts every port |
| PortSpec.PortsRoundTrip | patches/fanchmwrt/package/fcm/fwx/src/fwx_main.c:177-244 | printing ranges with bounds below 2^31 and parsing the text gives the same ranges, negated or not |
| PortSpec.PrintedRange | patches/fanchmwrt/package/fcm/fwx/src/fwx_main.c:177-212 | one printed element is read back and can be neither cut nor trimmed |
| PortSpec.PrintedPortsFit | patches/fanchmwrt/package/fcm/fwx/src/fwx_main.c:214-244 | printed ranges that find a place in the array stay inside both buffers |
| PortSpec.ElementLimits | patches/fanchmwrt/package/fcm/fwx/src/fwx_main.c:214-244 | an element fits up to 127 characters, and one of blanks, `!`, `-` and digits needs a free place |
| MatchLaws.PortLaw | patches/fanchmwrt/package/fcm/fwx/src/fwx_main.c:246-281 | no range accepts every port; a negated range makes the positive ones idle and excludes its own ports; without one the port is in some range |
| MatchLaws.NegatedPortText | patches/fanchmwrt/package/fcm/fwx/src/fwx_main.c:177-281 | a positive range and a negated port as text: every port but the negated one is accepted, also outside the positive range |
| CText.JoinPieces | patches/fanchmwrt/package/fcm/fwx/src/fwx_main.c:122-136 | the tokenizer loop shared by all levels loses nothing: its tokens with the separators between them are the text |
| CText.TokensOfJoin | patches/fanchmwrt/package/fcm/fwx/src/fwx_main.c:313-351 | tokenizing joined pieces gives the pieces if and only if the first is not an empty one before others, which is what skipping index 0 costs |
| CText.ScanOfDecimal | patches/fanchmwrt/package/fcm/fwx/src/fwx_main.c:201-208 | a printed number of any size is read back as its 32 lowest bits, with what follows it left over |
| CText.ScanOfHex | patches/fanchmwrt/package/fcm/fwx/src/fwx_main.c:128 | a printed hexadecimal number is read back as its 32 lowest bits |
| CText.ScanExamples | patches/fanchmwrt/package/fcm/fwx/src/fwx_main.c:201-208 | how blanks, signs, hexadecimal prefixes and missing digits are read, on concrete texts |
| FeatureSyntax.ParseDict | patches/fanchmwrt/package/fcm/fwx/src/fwx_main.c:118-148 | the dictionary loop yields the entries of the terminated elements in order, a malformed one repeating the previous values, and the last element only when complete; it leaves defined behaviour exactly when there are MAX_POS_INFO_PER_FEATURE - 1 or more separators or an element of 64 or more characters |
| FeatureSyntax.ReadFields | patches/fanchmwrt/package/fcm/fwx/src/fwx_main.c:285-362 | each field holds the piece of that number when a separator ended it, and the last piece only as field 5 or field 7; a buffer is overrun exactly when a stored piece has 16, 32 or 128 characters or more, as its field has |
| FeatureSyntax.ParseRecord | patches/fanchmwrt/package/fcm/fwx/src/fwx_main.c:283-381 | a record is read exactly from texts that are long enough and name tcp or udp; it faults exactly when a field, the ports or the dictionary of such a text overrun a buffer |
| FeatureSyntax.FeatureTable.FindBody | patches/fanchmwrt/package/fcm/fwx/src/fwx_main.c:405-419 | the body is what stands between the last opening bracket that a closing one follows as the loop sees them; every read stays inside the line, and the copy overruns its buffer exactly when the computed length is that of the buffer or more |
| FeatureSyntax.FeatureTable.AddFeature | patches/fanchmwrt/package/fcm/fwx/src/fwx_main.c:425-435 | pushes the node of one feature text on the list, or nothing when it is no record; faults exactly when the terminator does not fit the copy buffer or the text faults |
| FeatureSyntax.FeatureTable.AddFeatures | patches/fanchmwrt/package/fcm/fwx/src/fwx_main.c:420-448 | the feature loop faults exactly when a feature before the first that is too long faults or fills the copy buffer, so that its terminator lands behind it; else it pushes the nodes of all of these |
| FeatureSyntax.FeatureTable.InitFeature | patches/fanchmwrt/package/fcm/fwx/src/fwx_main.c:383-453 | unless the name, the body or a feature overruns a buffer, a line pushes the nodes of its features so that the last one is at the head; a line with a comment sign pushes nothing and is not counted |
| FeatureSyntax.FeatureTable.Clean | patches/fanchmwrt/package/fcm/fwx/src/fwx_main.c:545-557 | the list and the counter are empty afterwards |
| FeatureSyntax.TakingStep | patches/fanchmwrt/package/fcm/fwx/src/fwx_main.c:423-436 | one step of the feature loop either keeps the tokens cut so far and their rest, or ends the line at a feature that is too long |
| FeatureSyntax.LongFeatureEnds | patches/fanchmwrt/package/fcm/fwx/src/fwx_main.c:427-446 | a feature that is too long ends its line: exactly those before it are taken |
| FeatureSyntax.LineStart | patches/fanchmwrt/package/fcm/fwx/src/fwx_main.c:401-404 | a line with a comment sign gives no signature and overruns nothing; one that does not start with a number has the id that lay on the stack, and no name |
| FeatureSyntax.FieldLimits | patches/fanchmwrt/package/fcm/fwx/src/fwx_main.c:285-298 | fields fit up to 15 characters for protocol and ports, 31 for the host and 127 for the others |
| FeatureSyntax.DictLimits | patches/fanchmwrt/package/fcm/fwx/src/fwx_main.c:94-136 | dictionary elements fit up to 63 characters, and with several of them only while the separators number less than MAX_POS_INFO_PER_FEATURE - 1 |
| FeatureSyntax.FaultLaw | patches/fanchmwrt/package/fcm/fwx/src/fwx_main.c:283-381 | a feature overruns a buffer exactly by a field, or, named tcp or udp, by its ports or its dictionary |
| FeatureSyntax.DictExample | patches/fanchmwrt/package/fcm/fwx/src/fwx_main.c:122-148 | a malformed dictionary element repeats the one before it, and an incomplete last one is dropped |
| FeatureSyntax.BracketExamples | patches/fanchmwrt/package/fcm/fwx/src/fwx_main.c:405-419 | on concrete lines: an opening bracket at the very start is not seen, and a second one moves the start of the body but leaves its length |
| FeaturePrint.DictRoundTrip | patches/fanchmwrt/package/fcm/fwx/src/fwx_main.c:118-148 | reading a printed dictionary of 32-bit positions and values gives its entries |
| FeaturePrint.RecordRoundTrip | patches/fanchmwrt/package/fcm/fwx/src/fwx_main.c:283-381 | reading a printed record of eight fields, each within its buffer, gives the record and overruns no buffer |
| FeaturePrint.CrowdedFeatureFaults | patches/fanchmwrt/package/fcm/fwx/src/fwx_main.c:133-139 | a constructed feature whose dictionary has too many elements faults |
| FeaturePrint.RecordOfPieces | patches/fanchmwrt/package/fcm/fwx/src/fwx_main.c:313-362 | reading the text of the first n fields of a record gives exactly the stored ones: all n for n = 6 and n = 8, and all but the last for every other n |
| FeaturePrint.LastPieceKept | patches/fanchmwrt/package/fcm/fwx/src/fwx_main.c:355-362 | so the first n fields are read back if and only if n is 6 or 8 or the last one is empty; a record printed with exactly six semicolons is read without its search text |
| FeaturePrint.BodyOfWrapped | patches/fanchmwrt/package/fcm/fwx/src/fwx_main.c:405-419 | the bracket search finds the body behind every possible header |
| FeaturePrint.HeaderOfPrinted | patches/fanchmwrt/package/fcm/fwx/src/fwx_main.c:404 | the header gives back the id, narrowed to 32 bits, and the name with its leading blank |
| FeaturePrint.HeadAndBodyLimits | patches/fanchmwrt/package/fcm/fwx/src/fwx_main.c:385-419 | a name overruns its buffer exactly from 128 characters on, and a body exactly from MAX_FEATURE_LINE_LEN on |
| FeaturePrint.PrintedLineFits | patches/fanchmwrt/package/fcm/fwx/src/fwx_main.c:427-446 | reading a printed line of well-formed records overruns no buffer if and only if the last record is at least two characters shorter than the copy buffer |
| FeaturePrint.FillingFeatureFaults | patches/fanchmwrt/package/fcm/fwx/src/fwx_main.c:427-446 | two lines whose feature passes the length test and yet puts its terminator behind the copy buffer: the last one of a line with one character less than the buffer has, and one before a comma with as many |
| FeaturePrint.LineRoundTrip | patches/fanchmwrt/package/fcm/fwx/src/fwx_main.c:383-453 | printing well-formed records into one line, the last one short enough for that, and reading it gives exactly those records, each with the printed id and name, and overruns no buffer |
| FeaturePrint.MessageRoundTrip | patches/fanchmwrt/package/fcm/fwx/src/fwx_main.c:559-569 | so the message that carries a printed line adds exactly those signatures |
| FeaturePrint.LastRecordFirst | patches/fanchmwrt/package/fcm/fwx/src/fwx_main.c:150-152 | after reading a printed line the list holds its records in reverse order, the last one at the head |
| FeaturePrint.ExampleRecords | patches/fanchmwrt/package/fcm/fwx/src/fwx_main.c:283-381 | the texts of two concrete records, field by field |
| FeaturePrint.ExampleLine | patches/fanchmwrt/package/fcm/fwx/src/fwx_main.c:383-453 | the text of the line that holds both |
| FeatureMatch.MemStr | patches/fanchmwrt/package/fcm/fwx/src/fwx_main.c:869-879 | finds the first occurrence, and nothing exactly when there is none |
| FeatureMatch.MatchByPos | patches/fanchmwrt/package/fcm/fwx/src/fwx_main.c:881-926 | with positions computed as unsigned 32-bit numbers, agrees with signed indexing from the end; true exactly when there is an entry, all entries hold inside the payload and the search text, if any, occurs |
| FeatureMatch.MatchOne | patches/fanchmwrt/package/fcm/fwx/src/fwx_main.c:974-1015 | decides the meaning of one signature: protocol, payload, ports, then URL before positions before nothing |
| FeatureMatch.MatchFeature | patches/fanchmwrt/package/fcm/fwx/src/fwx_main.c:1055-1083 | reports the first matching node of the list, QUIC only when there is none, and nothing otherwise |
| FeatureMatch.FirstIsLatest | patches/fanchmwrt/package/fcm/fwx/src/fwx_main.c:150-152 | the first match in the pushed list is the most recently added matching signature |
| FeatureMatch.Receiver.Handle | patches/fanchmwrt/package/fcm/fwx/src/fwx_main.c:1843-1865 | after any sequence of messages without a fault the list is everything added since the last clean message, newest first, and every node fits its arrays; lines that are empty or too long add nothing |
| FeatureMatch.Receiver.Lookup | patches/fanchmwrt/package/fcm/fwx/src/fwx_main.c:1055-1083 | a flow is reported as the most recently added signature since the last clean message that matches it, and as QUIC only when none does |
| MatchLaws.MatchLaw | patches/fanchmwrt/package/fcm/fwx/src/fwx_main.c:974-1015 | a signature matches if and only if protocol number, payload, source port unless it is 0, and destination port fit, and then the URL test if it has a host or a request, else every byte entry and, beside a dictionary, the search text |
| MatchLaws.SourcePortFree | patches/fanchmwrt/package/fcm/fwx/src/fwx_main.c:985-990 | without a source port in the signature that of the flow does not matter |
| MatchLaws.DictionaryIdle | patches/fanchmwrt/package/fcm/fwx/src/fwx_main.c:996-1014 | with a host or a request, dictionary and search text do not matter |
| MatchLaws.BytesExample | patches/fanchmwrt/package/fcm/fwx/src/fwx_main.c:881-926 | a concrete signature and payload: the first byte has to be 16 and the last one ff |
| MatchLaws.ReportOne | patches/fanchmwrt/package/fcm/fwx/src/fwx_main.c:974-1083 | end to end: right after the message with one printed record of a single port, a flow is reported as that signature, with its id and name, exactly when it goes to that port and protocol, source port, payload and content fit |
| MatchLaws.AfterClean | patches/fanchmwrt/package/fcm/fwx/src/fwx_main.c:1843-1865 | behind a clean message the list is what the messages since then added, empty and overlong ones adding nothing |
| MatchLaws.QuicLaw | patches/fanchmwrt/package/fcm/fwx/src/fwx_main.c:1018-1053 | the built-in test on bytes: a long header and the versions 0, 1, 6b3343cf or ff and anything, or port 443 |
| TlsScan.CheckDomain | patches/fanchmwrt/package/fcm/fwx/src/fwx_main.c:659-673 | accepts exactly names of letters, digits, dot, minus and colon |
| TlsScan.HttpsFlow.Scan | patches/fanchmwrt/package/fcm/fwx/src/fwx_main.c:675-731 | a hit is the first position where pattern, length limits and domain test all pass, with the name strictly inside the payload; a miss means there is no such position; a scanned payload ends as a hit with client_hello cleared or as a miss with it set; every byte read is inside the payload |
| InspectionRuns.HelloWaits | patches/fanchmwrt/package/fcm/fwx/src/fwx_main.c:1551-1579 | after any run, with the scan as the inspection of each packet, the hello bit is set if and only if an inspected packet started a handshake without a server name and no inspected packet of 16 bytes or more since then had one |
| TlsScan.ServerNameIsCandidate | patches/fanchmwrt/package/fcm/fwx/src/fwx_main.c:706-727 | a server_name extension as in section 3 of RFC 6066 is accepted where it starts if and only if the name has domain characters, its length is within the limits and at most 250, and a byte follows |
| TlsScan.ServerNameFound | patches/fanchmwrt/package/fcm/fwx/src/fwx_main.c:694-727 | the scanner hits at that extension or earlier, and at the extension reports exactly the name |
| TlsScan.CandidateShape | patches/fanchmwrt/package/fcm/fwx/src/fwx_main.c:694-727 | with the usual offsets a position is accepted if and only if three zero bytes and one that is not zero start there, the length and the characters of the name are allowed, and a byte follows it |
| TlsScan.EveryCandidate | patches/fanchmwrt/package/fcm/fwx/src/fwx_main.c:694-727 | every accepted position has that shape |
| TlsScan.DomainBytes | patches/fanchmwrt/package/fcm/fwx/src/fwx_main.c:659-673 | the accepted characters by their codes |
| TlsScan.FindServerName | patches/fanchmwrt/package/fcm/fwx/src/fwx_main.c:675-731 | scanning a record of type 22 and version 3 whose first message is a ClientHello, the first of its connection, reports exactly the name in its server_name extension, provided that nothing like the pattern comes before it |
| TlsScan.SkipOther | patches/fanchmwrt/package/fcm/fwx/src/fwx_main.c:675-693 | a payload that does not begin a handshake is no hit and leaves the flag clear |
| HttpScan.HttpFlow.Scan | patches/fanchmwrt/package/fcm/fwx/src/fwx_main.c:733-789 | the one-pass scan with four readable bytes of slack equals: cut at line breaks up to the first blank line, take the last request line and the last host line, and the body behind the blank line |
| HttpScan.HttpFlow.Note | patches/fanchmwrt/package/fcm/fwx/src/fwx_main.c:760-778 | the fixed-length comparisons see exactly whether the line starts with the word, even when the line is shorter |
| HttpScan.LinesAreLines | patches/fanchmwrt/package/fcm/fwx/src/fwx_main.c:756-788 | the lines are cut exactly at the line breaks and contain none |
| HttpScan.SliceBounds | patches/fanchmwrt/package/fcm/fwx/src/fwx_main.c:760-783 | the URL length is never negative, the host length is at least -1, and both slices end before the payload does |
| HttpScan.LinesOfRendered | patches/fanchmwrt/package/fcm/fwx/src/fwx_main.c:756-788 | cutting a rendered message head (section 3 of RFC 9112) gives back its lines, behind any prefix |
| HttpScan.PlacesOfMessage | patches/fanchmwrt/package/fcm/fwx/src/fwx_main.c:756-788 | scanning a rendered message finds each line at its place with its text, and the body |
| HttpScan.ScannedRequest | patches/fanchmwrt/package/fcm/fwx/src/fwx_main.c:756-788 | of a rendered message the scan reports everything behind the method up to the line end, everything but the first byte behind the host word, and the body, whatever the other headers are |
| HttpScan.RequestRoundTrip | patches/fanchmwrt/package/fcm/fwx/src/fwx_main.c:733-789 | for a request as in RFC 9112 of at least MIN_HTTP_DATA_LEN bytes the scan gives back method and body; the URL slice is always the target with the version behind it, never the target; the host slice is the host if and only if one blank precedes it and none follows, or it is empty with at most one blank; a shorter request is ignored |
| HttpScan.HostWithoutBlank | patches/fanchmwrt/package/fcm/fwx/src/fwx_main.c:774-778 | the host line Host:ab is read as b |
| HttpScan.WordBytes | patches/fanchmwrt/package/fcm/fwx/src/fwx_main.c:760-774 | the words that are searched for, by their codes |
| Bits.AndLowMask | patches/fanchmwrt/package/fcm/fwx/src/fwx_client.c:120-126 | a mask of the k lowest bits keeps exactly those bits |
| Bits.AndHighMask | patches/fanchmwrt/package/fcm/fwx/src/fwx_stat_exclude.c:27-34 | a mask without the k lowest bits keeps exactly the others |
| Bits.AndOneBit | patches/fanchmwrt/package/fcm/fwx/src/fwx_stat_exclude.c:102 | a single-bit mask tests that bit |
| ClientTable.HashIsRemainder | patches/fanchmwrt/package/fcm/fwx/src/fwx_client.c:120-126 | the masked bucket index is the remainder of the last address byte by the table size |
| ClientTable.IdleTest | patches/fanchmwrt/package/fcm/fwx/src/fwx_client.c:242 | what the expiry test says about true ticks less than a turn of the counter apart, with and without a wrap of the counter or of the deadline |
| ClientTable.IdleTestRight | patches/fanchmwrt/package/fcm/fwx/src/fwx_client.c:242 | the test removes a client exactly when it was idle for longer than the limit if and only if deadline and counter wrap around together |
| ClientTable.IdleTestFails | patches/fanchmwrt/package/fcm/fwx/src/fwx_client.c:242 | an input for each direction: a client idle for almost a whole turn is kept, and one used in this tick is removed |
| ClientTable.FirstPlaceIsFirst | patches/fanchmwrt/package/fcm/fwx/src/fwx_client.c:155-171 | no place before the first one satisfies the condition |
| ClientTable.StepOk | patches/fanchmwrt/package/fcm/fwx/src/fwx_client.c:120-255 | every event keeps each client in its bucket and no address twice |
| ClientRuns.StepRefinesMap | patches/fanchmwrt/package/fcm/fwx/src/fwx_client.c:128-255 | the bucket table refines a map from address to client: every event changes the entry of at most one address, and to the stated value |
| ClientRuns.StepTotal | patches/fanchmwrt/package/fcm/fwx/src/fwx_client.c:566-601 | the sum of any measure over all clients changes by exactly what the one affected entry changes |
| ClientRuns.MeasureConserved | patches/fanchmwrt/package/fcm/fwx/src/fwx_client.c:566-601 | over every interleaving, live clients plus removed clients hold exactly what the events have added, for any measure |
| ClientRuns.GainOfEvent | patches/fanchmwrt/package/fcm/fwx/src/fwx_client.c:594-597 | an event adds the length of the packet it credits to the bytes of its direction, nothing to the other, and one client exactly when it creates one |
| ClientRuns.UpConserved | patches/fanchmwrt/package/fcm/fwx/src/fwx_client.c:566-601 | over every interleaving of up and down packets, additions, refreshes and sweeps, the up bytes of live and removed clients are the lengths of the counted up packets |
| ClientRuns.DownConserved | patches/fanchmwrt/package/fcm/fwx/src/fwx_client.c:657-688 | the same for down packets |
| TrafficRuns.TrafficConserved | patches/fanchmwrt/package/fcm/fwx/src/fwx_client.c:566-688 | the same with the exclusion test in place: in each direction, the bytes of live and removed clients are those of the packets that the settings of their moment do not exclude and that find or make a client |
| ClientRuns.CreatedIsLiveAndRemoved | patches/fanchmwrt/package/fcm/fwx/src/fwx_client.c:221 | total_client counts additions: it is the number of live clients plus the number of removed ones |
| ClientRuns.CreditedOnce | patches/fanchmwrt/package/fcm/fwx/src/fwx_client.c:594-597 | a counted packet is credited to exactly one address, any other packet to none |
| ClientRuns.SweepRemovesFirst | patches/fanchmwrt/package/fcm/fwx/src/fwx_client.c:231-255 | one sweep removes exactly the first expired client in table order, and nothing if and only if none is expired |
| ClientLaws.PlacesLaw | patches/fanchmwrt/package/fcm/fwx/src/fwx_client.c:155-191 | a down packet belongs to the first client in table order with its destination address, and the gateway finds the first one with the source address, IPv4 before IPv6 |
| ClientLaws.ClientOfRun | patches/fanchmwrt/package/fcm/fwx/src/fwx_client.c:566-688 | after every interleaving a live client is told by the events that reached it since it was created: its addresses are the sources of its last up packets of the two families, its counters are number and length of the packets that count, its time is that of the last event |
| ClientLaws.LiveAfter | patches/fanchmwrt/package/fcm/fwx/src/fwx_client.c:144-255 | a client is live after an event if and only if it was and no sweep removed it, or the event created it |
| ClientLaws.UpSourceFound | patches/fanchmwrt/package/fcm/fwx/src/fwx_client.c:578-598 | after an up packet that finds or makes its client, the client has the source address and the time of the packet, and a search for that address succeeds |
| TrafficRuns.ReplyCredited | patches/fanchmwrt/package/fcm/fwx/src/fwx_client.c:578-684 | so right behind a packet from the LAN, a packet towards its source is credited exactly when the exclusion settings let it count |
| ClientLaws.PacketsConserved | patches/fanchmwrt/package/fcm/fwx/src/fwx_client.c:594-684 | packets are conserved as bytes are: live and removed clients hold exactly the packets that were credited |
| ClientHooks.ClientInfo.SeeUp | patches/fanchmwrt/package/fcm/fwx/src/fwx_client.c:575-599 | what an up packet does to its client, excluded packets refreshing it without being counted |
| ClientHooks.ClientInfo.SeeDown | patches/fanchmwrt/package/fcm/fwx/src/fwx_client.c:673-686 | the same for a down packet; its addresses stay |
| ClientHooks.ClientInfo.Refresh | patches/fanchmwrt/package/fcm/fwx/src/fwx_main.c:1499 | only the time of the last use changes |
| ClientHooks.Table.FindByMac | patches/fanchmwrt/package/fcm/fwx/src/fwx_client.c:128-142 | finds the client of an address in its bucket exactly when the table has one |
| ClientHooks.Table.FindByIp | patches/fanchmwrt/package/fcm/fwx/src/fwx_client.c:155-172 | finds the first client in table order with an IPv4 address |
| ClientHooks.Table.FindByIp6 | patches/fanchmwrt/package/fcm/fwx/src/fwx_client.c:173-191 | the same for IPv6 |
| ClientHooks.Table.Link | patches/fanchmwrt/package/fcm/fwx/src/fwx_client.c:223 | a node goes to the front of its bucket, every other place stays |
| ClientHooks.Table.FindAndAdd | patches/fanchmwrt/package/fcm/fwx/src/fwx_client.c:144-152 | afterwards the table has the client unless it is new and there is no memory; the creation counter rises exactly with a creation |
| ClientHooks.Table.Update | patches/fanchmwrt/package/fcm/fwx/src/fwx_client.c:575-599 | updating the object found changes the table at that one place |
| ClientHooks.Table.UpHook | patches/fanchmwrt/package/fcm/fwx/src/fwx_client.c:566-601 | the hook on objects is one up event of the table that the run lemmas are about |
| ClientHooks.Table.DownHook | patches/fanchmwrt/package/fcm/fwx/src/fwx_client.c:657-688 | the hook on objects is one down event; it creates nobody |
| ClientHooks.Table.RefreshHook | patches/fanchmwrt/package/fcm/fwx/src/fwx_main.c:1487-1500 | the gateway hook finds the client by the IPv4 source, else by the IPv6 source, and refreshes that one; on the table it is one refresh event |
| ClientHooks.Table.Unlink | patches/fanchmwrt/package/fcm/fwx/src/fwx_client.c:247 | a node leaves its bucket, every other node stays |
| ClientHooks.Table.CheckExpire | patches/fanchmwrt/package/fcm/fwx/src/fwx_client.c:231-255 | the sweep on objects is one sweep event; the creation counter does not fall |
| PeriodReport.ClientTimer.SendReport | patches/fanchmwrt/package/fcm/fwx/src/fwx_client.c:404-409 | a report says the period bytes in kilobytes and clears them; one that cannot be built leaves the period counters as they are |
| PeriodReport.ClientTimer.UpdateStatus | patches/fanchmwrt/package/fcm/fwx/src/fwx_client.c:474-506 | the sampling of one tick: deltas, rates, the activity flag and the new last sample |
| PeriodReport.ClientTimer.Handler | patches/fanchmwrt/package/fcm/fwx/src/fwx_client.c:746-754 | one tick is one step of the timer history, and emits a report exactly when one is due and can be built |
| PeriodReport.PeriodConserved | patches/fanchmwrt/package/fcm/fwx/src/fwx_client.c:474-493 | the bytes of all emitted reports plus the pending period are the last sample minus the first nonzero sample, whichever reports failed in between |
| PeriodReport.KilobyteLoss | patches/fanchmwrt/package/fcm/fwx/src/fwx_client.c:408-409 | the reported kilobytes lose less than 1024 bytes per report and direction |
| PeriodReport.KilobytesOf | patches/fanchmwrt/package/fcm/fwx/src/fwx_client.c:408-409 | in one report that holds if and only if the kilobyte number fits 32 bits |
| PeriodReport.DueTicks | patches/fanchmwrt/package/fcm/fwx/src/fwx_client.c:746-753 | reports fall due exactly at ticks 31, 61, 91, ... |
| PeriodReport.Activity | patches/fanchmwrt/package/fcm/fwx/src/fwx_client.c:494-505 | active_time and inactive_time are the lengths of the current runs of high and low ticks, exactly one of them positive after every tick |
| PeriodReport.ActiveWhen | patches/fanchmwrt/package/fcm/fwx/src/fwx_client.c:494-505 | a client is active if and only if some tick had at least 42 down packets and at most 30 ticks came after it |
| PeriodReport.RatesOfRun | patches/fanchmwrt/package/fcm/fwx/src/fwx_client.c:485-488 | after every run the four rates are half of what each counter grew by in the last tick |
| PeriodReport.ReportLaw | patches/fanchmwrt/package/fcm/fwx/src/fwx_client.c:408-410 | a report says the whole kilobytes of each direction, while they fit 32 bits, and the activity flag |
| VisitReport.BuildList | patches/fanchmwrt/package/fcm/fwx/src/fwx_client.c:412-440 | for any settings of the two limits, the report names the first records of a sort of the eligible records, whose counts are all zero by then; all counts are cleared |
| VisitReport.AnyOrderSorts | patches/fanchmwrt/package/fcm/fwx/src/fwx_client.c:422-429 | every order of the eligible records is a correct result of that sort |
| VisitReport.TopNCertain | patches/fanchmwrt/package/fcm/fwx/src/fwx_client.c:422-429 | so the reported records are the most used ones for every correct sort if and only if none is reported, all eligible ones fit, or all were used equally often |
| VisitReport.ReportingClient.Report | patches/fanchmwrt/package/fcm/fwx/src/fwx_client.c:380-458 | a report that fails before its loop changes nothing, one that fails behind it has cleared the visit counts and keeps the period counters, one that is sent clears both |
| VisitReport.VisitsCarried | patches/fanchmwrt/package/fcm/fwx/src/fwx_client.c:397-447 | after a report that was not sent, its visits wait for the next one if and only if it failed before the loop or there were none; otherwise they are lost |
| VisitReport.EligibleLaw | patches/fanchmwrt/package/fcm/fwx/src/fwx_client.c:416-423 | a record is eligible exactly when it was used and is not a web application with too few connections; its count is cleared and nothing else |
| VisitReport.CountLaw | patches/fanchmwrt/package/fcm/fwx/src/fwx_client.c:427-430 | as many are reported as there are, up to the limit, and none for a negative one |
| StatExclude.ExcludeTable.constructor | patches/fanchmwrt/package/fcm/fwx/src/fwx_stat_exclude.c:19-25 | nothing is excluded at the start |
| StatExclude.MaskedOrderFree | patches/fanchmwrt/package/fcm/fwx/src/fwx_stat_exclude.c:66-69 | comparing under a mask gives the same answer on machines of either byte order |
| StatExclude.InNetIsPrefix | patches/fanchmwrt/package/fcm/fwx/src/fwx_stat_exclude.c:27-69 | an address is in a net if and only if integer division by 2^(32 - plen) agrees, for every prefix length and byte order |
| StatExclude.NestedOrDisjoint | patches/fanchmwrt/package/fcm/fwx/src/fwx_stat_exclude.c:66-69 | two nets with a common address are nested (section 3.1 of RFC 4632) |
| StatExclude.CidrOfPrinted | patches/fanchmwrt/package/fcm/fwx/src/fwx_stat_exclude.c:36-64 | an address with a printed prefix length is read as that net if and only if the length, narrowed to 32 bits, is 0 to 32; without a length it is the single address |
| StatExclude.CidrOfHugeLength | patches/fanchmwrt/package/fcm/fwx/src/fwx_stat_exclude.c:52-54 | the length 4294967304 is accepted and read as 8 |
| StatExclude.CidrLimits | patches/fanchmwrt/package/fcm/fwx/src/fwx_stat_exclude.c:36-51 | only the first 127 characters of an entry are read, and one without an address is refused |
| StatExclude.CidrWithoutLength | patches/fanchmwrt/package/fcm/fwx/src/fwx_stat_exclude.c:50-54 | a slash without a number behind it is read as the length 0, so the entry covers every address |
| Common.ToInt32 | patches/fanchmwrt/package/fcm/fwx/src/fwx_stat_exclude.c:52 | narrowing keeps exactly the numbers that fit 32 signed bits, and takes multiples of 2^32 away from the others |
| StatExclude.ExcludedSymmetric | patches/fanchmwrt/package/fcm/fwx/src/fwx_stat_exclude.c:80-117 | exclusion does not depend on which endpoint is the source |
| StatExclude.ExcludeTable.FlowExcluded | patches/fanchmwrt/package/fcm/fwx/src/fwx_stat_exclude.c:80-117 | the loop with its shortcuts decides the declarative test: LAN to LAN if configured, a listed protocol inside the LAN, or an endpoint in some listed net; from protocol 32 on with an arbitrary value of the shift |
| StatExclude.ExcludedInNumbers | patches/fanchmwrt/package/fcm/fwx/src/fwx_stat_exclude.c:72-117 | the test in numbers, for a LAN and nets with prefix lengths on machines of either byte order: excluded if and only if both addresses agree with the LAN under integer division and LAN traffic is excluded or the protocol bit is set, or one address agrees with a listed net |
| StatExclude.LeavingLanCounts | patches/fanchmwrt/package/fcm/fwx/src/fwx_stat_exclude.c:72-117 | without listed nets a packet with an endpoint outside the LAN is counted |
| StatExclude.LanExample | patches/fanchmwrt/package/fcm/fwx/src/fwx_stat_exclude.c:72-117 | the LAN 192.168.1.1 with the mask 255.255.255.0: traffic inside is excluded exactly by the flag, traffic with any other address never |
| StatExclude.WideProtocol | patches/fanchmwrt/package/fcm/fwx/src/fwx_stat_exclude.c:88-97 | from protocol 32 on the value of the shift decides in place of the bit |
| StatExclude.ExcludeTable.LoadNets | patches/fanchmwrt/package/fcm/fwx/src/fwx_stat_exclude.c:147-155 | the array holds the first 24 readable networks of the message, in order |
| StatExclude.ExcludeTable.SetConfig | patches/fanchmwrt/package/fcm/fwx/src/fwx_stat_exclude.c:119-160 | the message replaces the nets, and flag and mask only when it has them |
| Words.NextWord | patches/fanchmwrt/package/fcm/fwxd/src/fwx_utils.c:139 | one strtok_r call cuts the next maximal stretch without separators |
| Words.WordsOfSpaced | patches/fanchmwrt/package/fcm/fwxd/src/fwx_utils.c:256-277 | words are given back however they are spaced |
| Words.WordsOfJoined | patches/fanchmwrt/package/fcm/fwxd/src/fwx_utils.c:139-142 | words joined by single separators are given back |
| NetWords.CutWords | patches/fanchmwrt/package/fcm/fwxd/src/fwx_utils.c:256-277 | the pointer loop cuts exactly the maximal stretches without blanks, each shortened to 127 characters |
| NetWords.ApplyNets | patches/fanchmwrt/package/fcm/fwxd/src/fwx_utils.c:248-278 | through message and kernel, the stored nets are the first 24 readable words of the configured text, in order |
| NetWords.NetWordsOfText | patches/fanchmwrt/package/fcm/fwxd/src/fwx_utils.c:256-277 | words without blank, tab or line feed are given back however these space them, and sent as they are up to 127 characters and cut to them beyond |
| Aggregation.Collect | patches/fanchmwrt/package/fcm/fwxd/src/fwx_ubus.c:284-310 | the array holds exact totals of the first 2 * MAX_APP_STAT_NUM distinct applications with time, in the order of the list |
| Aggregation.FindApp | patches/fanchmwrt/package/fcm/fwxd/src/fwx_ubus.c:293-300 | finds the place of an application exactly when it has one |
| Aggregation.TableStep | patches/fanchmwrt/package/fcm/fwxd/src/fwx_ubus.c:288-310 | one more record keeps the table exact in all its cases, including the dropped one |
| Aggregation.UpdateVisitTimeList | patches/fanchmwrt/package/fcm/fwxd/src/fwx_ubus.c:273-325 | the visible list is the top of some correct sort of that table |
| Aggregation.VisibleIsTopOfTracked | patches/fanchmwrt/package/fcm/fwxd/src/fwx_ubus.c:313-321 | visible totals are exact, positive, descending and of distinct applications, and no tracked application left out has more |
| Aggregation.NoTimeLost | patches/fanchmwrt/package/fcm/fwxd/src/fwx_ubus.c:303-309 | the totals of the table sum to the total input if and only if every application found a place |
| Aggregation.TopOfAllExactly | patches/fanchmwrt/package/fcm/fwxd/src/fwx_ubus.c:303-321 | the visible list is the top of all applications if and only if, against every application that found no place, at least MAX_APP_STAT_NUM of those that did have a total no smaller |
| Aggregation.OverflowMissesTop | patches/fanchmwrt/package/fcm/fwxd/src/fwx_ubus.c:303-309 | with one application more the list can miss the most used one: a concrete input, for every correct sort |
| Paging.PageFrame | patches/fanchmwrt/package/fcm/fwxd/src/fwx_ubus.c:1100-1109 | page arithmetic of both queries: the number of pages, the clamped page and its start inside the list |
| Paging.EnoughPages | patches/fanchmwrt/package/fcm/fwxd/src/fwx_ubus.c:4189-4190 | the number of pages is the least that covers the list |
| Paging.GetUserRecords | patches/fanchmwrt/package/fcm/fwxd/src/fwx_ubus.c:4174-4252 | the two passes answer the clamped page of the filtered list without keeping that list |
| Paging.CollectRecords | patches/fanchmwrt/package/fcm/fwxd/src/fwx_ubus.c:4195-4252 | the second pass, which skips and stops, yields exactly the slice of the filtered list |
| Paging.CollectPage | patches/fanchmwrt/package/fcm/fwxd/src/fwx_ubus.c:1111-1123 | the index loop over two lists yields the slice of their concatenation |
| Paging.DevVisitList | patches/fanchmwrt/package/fcm/fwxd/src/fwx_ubus.c:1097-1123 | the device query answers the clamped page of the online visits followed by the offline ones |
| Paging.AllPages | patches/fanchmwrt/package/fcm/fwxd/src/fwx_ubus.c:4189-4193 | the pages 1 to total_page, one after another, are the whole list in order |
| Paging.RecordsOnceInOrder | patches/fanchmwrt/package/fcm/fwxd/src/fwx_ubus.c:4163-4252 | asking the record query for the pages 1 to the total_page it reports gives every selected record once, in order |
| Paging.VisitsOnceInOrder | patches/fanchmwrt/package/fcm/fwxd/src/fwx_ubus.c:1027-1123 | the same for the device query: the online visits, then the offline ones |
| Paging.FilteredLaw | patches/fanchmwrt/package/fcm/fwxd/src/fwx_ubus.c:4174-4187 | the filtered list holds, in order, exactly the records whose address contains the filter and whose time lies between start and end, an absent or empty filter and a time of 0 asking for nothing |
| Paging.RecordSizes | patches/fanchmwrt/package/fcm/fwxd/src/fwx_ubus.c:4144-4171 | page and size of the record query: 1 and 15 unless asked for otherwise, at most 200 |
| Paging.VisitSizes | patches/fanchmwrt/package/fcm/fwxd/src/fwx_ubus.c:1027-1038 | the same for the device query, without an upper limit |
| Paging.AnswerLaw | patches/fanchmwrt/package/fcm/fwxd/src/fwx_ubus.c:4189-4252 | an answer in numbers: the totals, the page shown, and which item stands at which place of it |
| TrafficWindow.Window.AddPoint | patches/fanchmwrt/package/fcm/fwxd/src/fwx_ubus.c:2938-2985 | the list stays the newest 30 points of the history, newest first, with the count equal to its length; a reading without memory leaves no trace |
| TrafficWindow.NewestAppend | patches/fanchmwrt/package/fcm/fwxd/src/fwx_ubus.c:2968-2977 | pushing and dropping the tail keeps the newest n points of every history |
| TrafficWindow.Window.Dashboard | patches/fanchmwrt/package/fcm/fwxd/src/fwx_ubus.c:3026-3050 | the answer always has 30 points: the kept ones oldest first, then zeros |
| TrafficWindow.NewestAt | patches/fanchmwrt/package/fcm/fwxd/src/fwx_ubus.c:3031-3036 | position i of the list is the i-th newest point |
| TrafficWindow.RatesNearGrowth | patches/fanchmwrt/package/fcm/fwxd/src/fwx_ubus.c:2944-2953 | over every history, where the kept readings have rising clocks and counters and rates that fit 32 bits, rate times interval sums to no more than the byte growth and falls short by at most one byte less than the seconds of each interval |
| TrafficWindow.RateLaw | patches/fanchmwrt/package/fcm/fwxd/src/fwx_ubus.c:2944-2953 | when a rate is 0, and else the whole bytes per second as a 32-bit number |
| TrafficWindow.PointLaw | patches/fanchmwrt/package/fcm/fwxd/src/fwx_ubus.c:2944-2965 | a kept reading adds one point with its counters and its time, the rates being those against the last kept reading |
| TimeSpec.ParseWeekdays | patches/fanchmwrt/package/fcm/fwxd/src/fwx_utils.c:183-195 | the inner loop keeps the first MAX_WEEKDAYS words that read as 0 to 6 |
| TimeSpec.WordWithoutNumber | patches/fanchmwrt/package/fcm/fwxd/src/fwx_utils.c:187-191 | a word counts as a day if and only if it reads as 0 to 6 or has no number at all, and then as day 0; so Mon is read as Sunday |
| TimeSpec.ParsePeriod | patches/fanchmwrt/package/fcm/fwxd/src/fwx_utils.c:144-196 | a token without a minus sign is no period; otherwise its parts are start, end and weekdays; start or end overruns its buffer exactly when it has 16 characters or more, an end without weekdays being cut instead |
| TimeSpec.ParseTimeStr | patches/fanchmwrt/package/fcm/fwxd/src/fwx_utils.c:127-199 | fails exactly without room; otherwise the first max_periods periods of the first 511 characters; overruns a buffer exactly when a word that is read does, words behind the last period that is asked for not being read |
| TimeSpec.WeekdaysRoundTrip | patches/fanchmwrt/package/fcm/fwxd/src/fwx_utils.c:183-195 | printed weekdays are read back within the buffer |
| TimeSpec.PeriodRoundTrip | patches/fanchmwrt/package/fcm/fwxd/src/fwx_utils.c:144-196 | a printed period is read back, within the buffers |
| TimeSpec.TimeRoundTrip | patches/fanchmwrt/package/fcm/fwxd/src/fwx_utils.c:127-199 | printing well-formed periods and parsing the text gives the periods, within the 511 characters and the buffers |
| TimeSpec.TimeExample | patches/fanchmwrt/package/fcm/fwxd/src/fwx_utils.c:127-199 | a concrete text is read as its two periods |
| TimeSpec.PeriodLaw | patches/fanchmwrt/package/fcm/fwxd/src/fwx_utils.c:144-196 | every token by its parts: how start, end and weekdays are cut, and that 16 characters overrun the buffers of the start and of an end that weekdays follow |
| TimeSpec.LongTimeText | patches/fanchmwrt/package/fcm/fwxd/src/fwx_utils.c:127-139 | only the first 511 characters of a text are read |

## Left out

- The bypass-mode handler: its connection table is in `fwx_conntrack.c`, which is not part of this model.
- Locks and concurrency inside one call: every hook call, timer tick and message is one atomic step. The down hook writes counters under a read lock, so finer steps would not conserve bytes.
- Packet buffers, netlink, procfs, sysctl, the character device, module start and stop, and the reset packet a drop may send.
- JSON, UCI and ubus: a message is the values it carries.
- Library functions beyond what the model needs: `sscanf`, `strtol`, `strtok_r` and `atoi` follow their documented behaviour; numbers are narrowed to 32 bits where they are stored, also where `atoi` is left undefined. `in4_pton` and the URL regular expressions are arbitrary.
- The sizes and types of the fields of a signature node are in a header outside the repository; they are taken to hold the texts of the parser's buffers, and 32-bit integers. The capacity of the range array is a symbolic constant.
- Failed allocation of a signature node or of the line buffer: the line would be skipped.
- HttpScan.HttpFlow.Scan: the scanner looks at up to four bytes behind the payload; they are taken to be readable.
- TlsScan.HttpsFlow.Scan: the header offsets stay symbolic but are taken to be ordered as the layout needs, pattern before length before name.
- The URL copy buffers of `af_match_by_url` and the shown URL of a client (`update_url_visiting_info`): the URL test is an arbitrary predicate.
- Wrap-around of the byte and packet counters: they are unbounded numbers that do not fall.
- Bucket chains of the per-client visit hash: the records are a map, which only drops their order; `flush_expired_visit_info` is not modelled.
- PeriodReport.ClientTimer.Handler: the sweep of visit records in the same tick touches none of this state; it is modelled by `Gateway.Client.CheckExpired`.
- VisitReport.BuildList: the fixed size of the record array is not modelled, so the eligible records are taken to fit; a negative connection limit is compared as a number.
- Payload bytes and port numbers are unsigned; `match_status` is modelled as its two bits in use.
- Aggregation.UpdateVisitTimeList: the class totals and the order of equal times are left to the sort's contract.
- Paging.DevVisitList: the two sorts by time are not modelled; any two ordered lists are paged. Page numbers whose products exceed 31 bits are not modelled.
- Reading of interface counters, `load_feature_config`, `str_trim`, nickname, white list and record settings, daily archiving, the LuCI pages, build scripts and everything under `nodes/`.
