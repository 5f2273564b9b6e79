# Verification of chi_net_bench

A Dafny model of the network benchmark: how a transfer's segments are exposed, shipped,
reallocated and pulled; how the driver, the handlers of every node and the stop protocol
interleave; and the tools around them (host table, address gather, launcher, timer, query
printing). `dafny verify dfyconfig.toml` checks everything.

## How it is laid out

| file | what it models |
|---|---|
| `Basics.dfy` | options, bytes, bit fields, `size_t` wrap-around, `std::to_string` |
| `Wire.dfy` | the serialised form of a `SegmentedTransfer` |
| `Layout.dfy` | the flat view of the selected segments, on values |
| `Masks.dfy` | which `io_flag` makes a call deliver, on values |
| `Transfer.dfy` | `MakeBulk`, `AllocateBulksServer`, `IoCallServerWrite` and one whole call, on arrays |
| `Handler.dfy` | one request from pool to response, in steps down to single bytes |
| `Protocol.dfy` | driver, request pools and stop protocol as a step machine |
| `Safety.dfy` | the inductive invariant |
| `Runs.dfy` | delivery, conservation, drain, agreement of the drivers, stop order |
| `NodeMemory.dfy` | the same machine with one memory per node, which all its handlers write |
| `Progress.dfy` | no deadlock, bounded runs, and when the call loop can return |
| `Shutdown.dfy` | how far `StopAllDaemons` gets, with a driver that fails and one that does not |
| `Bench.dfy` | the nested call loops as written, over a cluster whose handlers move at will |
| `Ping.dfy` | `PingAll` under failing calls and replies |
| `NodeTable.dfy` | `RpcContext`, server names, and which processes of a cluster drive |
| `SlotGather.dfy` | `chi_net_find` |
| `Launcher.dfy` | the launcher's command line, a shell's reading of it, `BenchmarkInit` |
| `CacheTimer.dfy` | `CacheTimer` |
| `DomainQuery.dfy` | `DomainQuery` factories and printing |

The data path is stated once on values (`Layout`) and used twice: the methods on arrays in
`Transfer` and the byte-by-byte moves in `Handler` are both proved against it. Requests of the
step machine carry their buffers with them; `NodeMemory` proves that its runs are exactly those
of a machine whose handlers share one memory per node.

Constants and conventions are pinned by small lemmas that name them in literals: the flag bits and
words (`Layout.WriteMask`, `DomainQueries.FlagBits`, `MadeFields`), the digits (`Decimal.DigitsInOrder`),
the joining of the command and the shell's rules (`Launcher.CommandJoins`, `BlankAndQuoteRules`,
`EscapeRule`, `SpecialRules`, `LiteralRule`), where a call may fail and how long the client engine
lives (`Shutdown.FailsAnywhere`, `ClientAliveMeans`).

## What is assumed

- The archive writes little-endian integers of the C++ width and a 64-bit length before
  every string and vector. The value `(size_t)data_` is a temporary, so loading restores no address.
- Thallium's `remote >> local` copies the first min(remote, local) bytes between the two flat
  views, wants a readable remote and a writable local handle, and may be interrupted between
  any two bytes. `malloc` succeeds and returns arbitrary contents.
- `BIT_OPT(T, n)` is `1 << n`, `Any(m)` is `bits & m != 0`, `Formatter::format` replaces each
  `{}` in order, and a fatal log does not return.
- Every node registers its handlers before the driver starts (the sleep in
  src/chi_net_bench.cc:151 comes before the registration), server names lead to distinct
  nodes (`ServerNameDistinguishes` says when), `rep` fits an `int`, a node id one past the last
  fits a `NodeId`, and the bytes of one call fit `size_t`. Sums that can wrap are modelled with
  the wrap.
- Client memory does not change during a run, as in the source.
- Sending a stop, or waiting for its answer, over a client engine that node 1's own stop handler
  has already finalised may succeed or fail: both steps are enabled.
  `ShutsDownIffThreads` does not rest on this: its runs use a live client throughout.
- An exception that ends the driver ends its process. The machine still allows steps of node 1
  after that; what is proved possible after a failure (`ReturnsIffSent`) uses other nodes only,
  and takes it that answering a driver that is gone may succeed: the `respond` in
  include/test_networks/rpc_thallium.h:93 is outside the `try`, so where it throws the node
  does not stop.
- The step machine has one driver. `OneDriver` says for which host lists that is so
  (`SingleDriver`); on any other list each driver sends its own calls and its own stops, and the
  results about the step machine, `StopHandledOnce` among them, say nothing.
- `malloc` gives a block that no other request holds; `SharedBlockLeaks` says what happens to one that
  two requests share.
- No option of the launcher holds a NUL, which no argument can carry.
- A cluster has one naming service and one process per host, and an address is local to one
  host or, like a loopback address, to all of them (`OneProcessPerHost`).

Name resolution, local interface addresses, `ExpandPath`, `ParseHostfile`, `ParseSize` and
`atoi` are parameters.

## Where the code says something else than its comments

- include/test_networks/serialize_defn.h:5-10 describes the flags as a sender that writes and a
  receiver that reads, but `DT_WRITE` contains `DT_EXPOSE` and the filter asks for any common
  bit. A segment flagged `DT_EXPOSE` alone is
  therefore pulled by the server, and a client call with `DT_EXPOSE` alone exposes its memory as
  readable. Both ends derive the same layout for all transfers exactly when they filter by the
  same mask (`Layout.MasksAgreeIff`).
- `StopAllDaemons` never reads its argument `last_node`.
- A value with a single quote breaks the launcher's command (`QuoteBreaksCommand`), and of several
  iteration flags a query prints one. For both there is the exact condition (`RoundTripIffNoQuote`,
  `PrintSameShown`, `PrintRecoversTop`).
- Every process for which the first host is local drives, so a host list that opens with a loopback
  address has as many drivers as processes (`OneDriver`; `LoopbackMakesTwoDrivers` is such a list).
- Node 1 is stopped first and finalises the client engine that the driver still sends and waits
  with (`ClientMayDieWhileSending`).

The 16-byte slots of `chi_net_find` always suffice: what a rank can find is empty or a dotted
IPv4 address. `RoundTripIffStorable` is the general fact about any strings.

## Model

| member | source | states |
|---|---|---|
| Wire.RoundTrip | include/test_networks/serialize_defn.h:81-84 | loading a saved transfer, followed by anything, gives the node, the metadata, and every flag and size back, no address, and leaves what follows |
| Wire.NoStrictPrefixLoads | include/test_networks/serialize_defn.h:81-84 | a message cut off anywhere does not load |
| Wire.EncodingDetermines | include/test_networks/serialize_defn.h:22-26 | byte streams that agree come from transfers that agree on all but addresses |
| Wire.WireLayout | include/test_networks/serialize_defn.h:81-84 | where each byte of a message is: the node, the string's length and text, the number of segments, then flags, address and size of each, all little-endian |
| Layout.WriteMask | include/test_networks/serialize_defn.h:9-10 | the DT_WRITE filter takes a segment exactly when its flag word is no multiple of four |
| Layout.PlannedOne | include/test_networks/rpc_thallium.h:166-173 | a single segment is planned whole or not at all by that rule, and one flagged DT_EXPOSE alone is planned |
| Layout.FlatAt | include/test_networks/rpc_thallium.h:163-179 | byte j of a selected segment sits at the planned size of the segments before it plus j |
| Layout.FlatInjective | include/test_networks/rpc_thallium.h:163-179 | over one descriptor list, equal flat views mean equal selected segments |
| Layout.PlannedVersusTotal | include/test_networks/serialize_defn.h:73-79 | planned bytes are at most the sum of all sizes before it wraps, and equal to it exactly when every nonempty segment is selected |
| Layout.PlannedVersusSize | include/test_networks/serialize_defn.h:73-79 | size(), which wraps, is at least the planned bytes exactly when the bytes left out are at least what the wrap loses; always when it does not wrap |
| Layout.MasksAgreeIff | include/test_networks/rpc_thallium.h:207-251 | both ends plan the same bytes for all transfers exactly when they filter by the same mask |
| Masks.ViewsNestedIff | include/test_networks/rpc_thallium.h:163-179 | what one flag exposes starts with what another does, for every memory, exactly when its list of nonempty selected segments does |
| Masks.DeliversIffFlagFits | include/test_networks/rpc_thallium.h:207-262 | a call with a given io_flag hands over the writable segments, for every memory at both ends, exactly when there are none, or both plans are visible in size_t, the flag meets DT_WRITE, and the segments the server wants are the first that the client exposes |
| Layout.WriteFlatEffect | include/test_networks/rpc_thallium.h:255-256 | storing at a position of the flat view changes that position, and no unselected buffer |
| Transfer.MakeBulk | include/test_networks/rpc_thallium.h:163-179 | the byte count, wrapped as size_t, and a handle on the selected regions unless that count is zero |
| Transfer.SelectionMemory | include/test_networks/rpc_thallium.h:166-176 | the memory the handle exposes is the flat view of the transfer |
| Transfer.MakeBulkClient | include/test_networks/rpc_thallium.h:182-191 | the client's handle is readable when its flag shares a bit with DT_WRITE |
| Transfer.MakeBulkServer | include/test_networks/rpc_thallium.h:194-203 | the server's handle is writable when its flag shares a bit with DT_WRITE |
| Transfer.Pull | include/test_networks/rpc_thallium.h:255-256 | from a readable onto a writable handle, min(remote, local) bytes replace the front of the local view |
| Transfer.SegmentedTransfer.AllocateBulksServer | include/test_networks/serialize_defn.h:67-71 | every segment gets a fresh buffer of its own of exactly its size; flags and sizes stay |
| Transfer.SegmentedTransfer.Size | include/test_networks/serialize_defn.h:73-79 | the sum of all sizes, wrapped as size_t |
| Transfer.SegmentedTransfer.IoCallServerWrite | include/test_networks/rpc_thallium.h:247-262 | nothing is pulled when the wrapped plan is zero; an unreadable handle is fatal; otherwise the pulled bytes replace the front of the view and unselected buffers are untouched |
| Transfer.SegmentedTransfer.RpcTaskSubmit | src/chi_net_bench.cc:29-35 | the handler allocates, pulls and answers 0, and says what arrived |
| Transfer.IoCall | include/test_networks/rpc_thallium.h:207-227 | a request holds the serialised transfer, and a readable handle exactly when bytes are planned |
| Transfer.SubmitCall | include/test_networks/rpc_thallium.h:207-262 | a whole call with any io_flag: when it is fatal, how many bytes move, that they are the front of the exposed view, and whole delivery when the flag fits the transfer |
| Transfer.WriteCall | include/test_networks/rpc_thallium.h:207-262 | a whole call: both plans and the bytes pulled agree as size_t, they are at most the sum of all sizes, and at most size() exactly when the bytes left out make up for its wrap; every selected segment arrives whole in a buffer of its own, whatever the addresses; only a plan that wraps around to zero in size_t moves nothing; in a transfer below 2^64 bytes every segment whose flag word is no multiple of four arrives whole |
| Handler.MoveKeepsRequest | src/chi_net_bench.cc:29-40 | every handler step keeps the request's bytes right, what it read of node and string included, and uses up work |
| Handler.PingReads | src/chi_net_bench.cc:37-40 | the handler of a ping reads the string that was sent, and nothing is left over |
| Handler.NeverStuck | include/test_networks/rpc_thallium.h:247-262 | an unanswered request can take its next step: it decodes, and a nonzero plan meets an exposed handle |
| Handler.PullsExactlyWhenExposed | include/test_networks/rpc_thallium.h:174-256 | an allocated request goes on to pull exactly when the client exposed memory, and then that memory, the plan and the bytes to move have one size |
| Handler.DeliveredWhole | include/test_networks/rpc_thallium.h:255-256 | once the whole view has arrived every selected buffer equals the client's |
| Safety.StepKeepsInv | src/chi_net_bench.cc:76-140 | every step of driver, handlers and stop protocol keeps the invariant |
| Safety.RunInv | src/chi_net_bench.cc:145-174 | the invariant holds in every state of every run |
| Runs.DeliveryOverEveryRun | src/chi_net_bench.cc:29-35 | in every reachable state, a request with a response has read the client's string and node, and has each buffer whose flag word is no multiple of four equal to the client's segment and the others as allocated |
| Runs.PartialPullIsPrefix | include/test_networks/rpc_thallium.h:255-256 | during a pull, whatever interleaves, the bytes so far are a prefix of the client's view |
| Runs.ReturnMeansComplete | src/chi_net_bench.cc:87-105 | when the call loop returns, all N * rep requests are collected and delivered and every node ran its handler rep times |
| Runs.DrainBeforeStop | src/chi_net_bench.cc:154-173 | in every run, failing ones too, a node that has heard of the stop or finalised an engine implies that all calls are complete |
| Runs.Conservation | src/chi_net_bench.cc:87-105 | per node, issued = queued + in handler + answered + collected, as the loop counters say or last said before an exception, and the handler counts and payload match |
| Runs.OutstandingBounded | src/chi_net_bench.cc:87-105 | at most one call is outstanding with the sync driver, at most N * rep with the async one, also after an exception has ended it |
| Runs.SyncAndAsyncAgree | src/chi_net_bench.cc:76-105 | both loops end with the same handler counts, payload and selected buffers |
| Runs.IoCallsMovesOps | src/chi_net_bench.cc:77-110 | the size_t product IoCalls reports a rate for is the bytes the calls carried modulo 2^64, and those bytes exactly when they are fewer than 2^64; every server buffer equals the client's data, under flag word 3, and every handler read the node and mdSize bytes of value 1 |
| Runs.MetadataCallsReachAll | src/chi_net_bench.cc:115-139 | when MetadataCalls returns, every node has answered rep pings, every handler has read mdSize bytes of value 1, and the number of calls reported is theirs modulo 2^64 |
| Runs.CompleteCounts | src/chi_net_bench.cc:87-105 | a complete state, counted request by request: rep requests to each node, each collected with its string read |
| Runs.CountersFit | src/chi_net_bench.cc:89-90 | the loop counters never leave NodeId and int |
| Runs.FailedBenchmarkStopsNobody | src/chi_net_bench.cc:154-173 | after a call fails in the benchmark no node is ever stopped and no daemon returns |
| Runs.DriverRunsNoDaemon | src/chi_net_bench.cc:154-174 | in every run the driver's own node never returns from RunDaemon |
| Runs.StopInOrder | include/test_networks/rpc_thallium.h:85-99 | a node answers its stop, then finalises its client engine, then its server engine |
| Runs.StopHandledOnce | include/test_networks/rpc_thallium.h:90-112 | no node handles two stops in a run |
| Runs.StopReturns | include/test_networks/rpc_thallium.h:79-112 | RunDaemon returned means the server engine is finalised; StopAllDaemons returned means every node has answered |
| NodeMemory.StepRefines | src/chi_net_bench.cc:29-35 | a step whose allocations and single-byte stores go to one memory per node is a step of the machine whose requests carry their buffers, and keeps all blocks apart |
| NodeMemory.RunRefines | src/chi_net_bench.cc:29-35 | every run on shared memory is a run of that machine |
| NodeMemory.RunLifts | src/chi_net_bench.cc:29-35 | and every run of that machine is one on shared memory |
| NodeMemory.HandlersDoNotInterfere | src/chi_net_bench.cc:29-35 | in every run, a move of one handler leaves the buffers of all other requests as they are |
| NodeMemory.DeliveredInMemory | include/test_networks/rpc_thallium.h:255-256 | in every run, the blocks of an answered request hold the client's segments in its node's memory |
| Progress.UsefulStepDecreases | src/chi_net_bench.cc:87-105 | every step of the loops or a handler strictly decreases a measure |
| Progress.AlwaysUsefulStep | src/chi_net_bench.cc:87-140 | while the call loop runs, with a thread on each node, some step is enabled |
| Progress.RunsAreBounded | src/chi_net_bench.cc:87-140 | a failure-free run up to shutdown is no longer than the initial measure |
| Progress.MaximalRunsFinish | src/chi_net_bench.cc:87-140 | such a run that cannot be extended has returned from the call loop |
| Progress.FinishedMeansServed | include/test_networks/rpc_thallium.h:55-61 | no run returns when some node has no RPC thread and there are calls to make |
| Progress.FinishesIffServed | include/test_networks/rpc_thallium.h:55-61 | the call loop can return if and only if rep is zero or every node has an RPC thread |
| Shutdown.ShutsDownIffThreads | include/test_networks/rpc_thallium.h:79-112 | StopAllDaemons can return if and only if every node has an RPC thread; then also in a run that never sends or waits over a finalised client engine and ends with every node down |
| Shutdown.GoesDown | include/test_networks/rpc_thallium.h:79-99 | from any run, a node with a thread that was sent a stop can go all the way down, with the driver and the stops of all other nodes left where they were |
| Shutdown.ClientMayDieWhileSending | include/test_networks/rpc_thallium.h:85-112 | the driver can come to send stops over a finalised client engine if and only if the call loop can return, there is a second node and node 1 has a thread |
| Shutdown.ReturnsIffSent | include/test_networks/rpc_thallium.h:79-112 | once the driver has failed, a daemon with a thread can still return if and only if its stop was sent before |
| Bench.Cluster.Calls | src/chi_net_bench.cc:87-105 | the nested loops, sync or async, terminate with every call complete whatever the handlers do between statements |
| Ping.PingAll | src/chi_net_bench.cc:44-73 | sync counts the nodes whose call is issued and answered; async those of them that come before the first failed wait |
| Ping.AsyncAtMostSync | src/chi_net_bench.cc:44-73 | the async count is at most the sync count, and smaller exactly when a failed wait comes before a call that is answered |
| NodeTable.GetIpAddress | include/test_networks/rpc.h:196-238 | a name of three dots and otherwise digits stands for itself, others are resolved |
| NodeTable.RpcContext.FindThisHost | include/test_networks/rpc.h:149-159 | the first local entry, or none when there is none |
| NodeTable.RpcContext.ServerInit | include/test_networks/rpc.h:66-96 | when it succeeds, ids contiguous from 1 with this node at its first local entry, or one entry renumbered 1; a second call changes no entry |
| NodeTable.RpcContext.GetServerName | include/test_networks/rpc_thallium.h:115-119 | a name for exactly the ids 1 to N |
| NodeTable.AddressOrName | include/test_networks/rpc.h:196-214 | exactly the names of three dots and otherwise digits stand for themselves; all others are looked up |
| NodeTable.ServerNameReads | include/test_networks/rpc_thallium.h:115-119 | a server name reads back as the protocol, "://", the address and, after its last colon, the port |
| Decimal.ValueOfNat | include/test_networks/rpc_thallium.h:117-118 | a printed number reads back as itself, with no needless zero |
| Decimal.DigitsInOrder | include/test_networks/rpc_thallium.h:117-118 | its digits are '0' to '9', the least significant last |
| Decimal.OfNatOfValue | include/test_networks/rpc_thallium.h:117-118 | every numeral without needless zeros is the print of its value |
| NodeTable.ServerNameDistinguishes | include/test_networks/rpc_thallium.h:115-119 | two ids of a table share a server name exactly when they share an address |
| NodeTable.OneDriver | src/chi_net_bench.cc:148-154 | process k has the id of its own entry or of the first address that is local everywhere, whichever comes first; so ids are 1 to N in list order exactly when no address but perhaps the last is local everywhere, and there is one driver exactly when there is one process or the first address is not |
| NodeTable.StartCluster | src/chi_net_bench.cc:145-154 | the same of the ids that ServerInit gives the processes |
| NodeTable.FoundHostsStandForThemselves | include/test_networks/rpc.h:196-214 | a host name written by chi_net_find leads to the address that was found, without resolution |
| SlotGather.FillSlot | src/chi_net_find.cc:77-79 | the slot holds the string up to its first NUL, cut at 15 bytes, NUL-padded |
| SlotGather.GatherSlots | src/chi_net_find.cc:74-82 | slot r of the gathered buffer holds rank r's string |
| SlotGather.ScanString | src/chi_net_find.cc:88 | a scan returns the stored string and stops inside its own slot |
| SlotGather.WriteHosts | src/chi_net_find.cc:87-92 | the lines are the nonempty stored strings in rank order |
| SlotGather.RoundTripIffStorable | src/chi_net_find.cc:71-92 | of any strings, the lines are the nonempty ones in rank order if and only if each is NUL-free and at most 15 bytes |
| SlotGather.FindIpFromFabric | src/chi_net_find.cc:17-50 | the dotted source of the first entry with the fabric's name and a source, by index; empty when no entry has both |
| SlotGather.FoundByIndex | src/chi_net_find.cc:31-46 | which entry the search stops at |
| SlotGather.DottedReads | src/chi_net_find.cc:37-40 | a dotted address reads back, dot by dot, as its four bytes in order |
| SlotGather.NonEmptyInOrder | src/chi_net_find.cc:87-92 | the nonempty strings keep their order; none is left out or put in |
| SlotGather.DottedFits | src/chi_net_find.cc:37-40 | every dotted address fits its slot, and none is empty |
| SlotGather.FindHosts | src/chi_net_find.cc:52-99 | line n is the first address that the n-th of the ranks with one found under the fabric's name; a rank without a line has no entry with that name and a source |
| SlotGather.LinesDetermineFound | src/chi_net_find.cc:71-92 | two runs write the same lines exactly when the same addresses were found in the same order |
| Launcher.RoundTripIffNoQuote | test/jarvis_chi_nettest/jarvis_chi_nettest/chi_net_bench/pkg.py:163-176 | by quoting alone, without expansions, a shell gives the words back, empty ones too, if and only if none contains a single quote |
| Launcher.NameSurvives | test/jarvis_chi_nettest/jarvis_chi_nettest/chi_net_bench/pkg.py:176 | a command that a shell accepts runs the name it was given, whatever the options hold |
| Launcher.LexRemoves | test/jarvis_chi_nettest/jarvis_chi_nettest/chi_net_bench/pkg.py:176 | how many characters a parse must remove for each quote and blank it drops or keeps |
| Launcher.BenchmarkInit | include/test_networks/config_server.h:56-90 | accepts exactly 11 arguments, and each field holds the argument of its position; without a host file the host list gains "localhost" |
| Launcher.Launch | test/jarvis_chi_nettest/jarvis_chi_nettest/chi_net_bench/pkg.py:163-179 | from options to fields through one shell: by quoting alone they arrive exactly when no option holds a single quote; otherwise the command is cut off or no simple command, hangs on an expansion, the count is refused, or it runs with the other options that the shell made of it |
| CacheTimers.CacheTimer.Pause | include/test_networks/chimaera_types.h:835-838 | a Pause keeps the three fields what the log of calls accounts for |
| CacheTimers.CacheTimer.GetNsec | include/test_networks/chimaera_types.h:831 | modulo 2^64, the sum since the last Reset of clock at each Pause minus clock at the latest mark before it |
| CacheTimers.LogStep | include/test_networks/chimaera_types.h:816-843 | how each call changes clock, mark and total of a log of any length |
| CacheTimers.ResetThenPause | include/test_networks/chimaera_types.h:835-843 | a Pause after a Reset accounts for what the clock has moved since the Reset, and for nothing earlier |
| CacheTimers.ResumeThenPause | include/test_networks/chimaera_types.h:833-838 | a Resume accounts for nothing, and the Pause after it adds the interval between them |
| CacheTimers.PauseThenPause | include/test_networks/chimaera_types.h:835-838 | a second Pause adds the time since the first |
| CacheTimers.MonotoneIsExact | include/test_networks/chimaera_types.h:833-843 | with a clock that never goes back or wraps, the total lies between zero and the clock and nothing is lost |
| CacheTimers.NetIsIntervalTime | include/test_networks/chimaera_types.h:833-843 | for alternating Resume and Pause on such a clock, net is the total interval time since the last Reset |
| DomainQueries.IterFlagsRecovered | include/test_networks/chimaera_types.h:548-551 | GetIterFlags returns the supplied flags exactly when they are iteration flags only |
| DomainQueries.PrintOfBits | include/test_networks/chimaera_types.h:687-736 | the text of any query from the numbered bits of its flag word |
| DomainQueries.PrintSameIff | include/test_networks/chimaera_types.h:687-736 | two queries print alike exactly when the five printed texts agree |
| DomainQueries.PrintSameShown | include/test_networks/chimaera_types.h:687-736 | queries with any flags print alike exactly when the first set flag of each kind, the range flag, the subdomain and the active selection agree |
| DomainQueries.PrintInjective | include/test_networks/chimaera_types.h:603-736 | factory-built queries with at most one iteration flag print alike exactly when flags, subdomain and active selection agree |
| DomainQueries.FactoryPrints | include/test_networks/chimaera_types.h:603-736 | a query prints the scope, selection, numbers and subdomain of the factory call that built it |
| DomainQueries.PrintRecoversCall | include/test_networks/chimaera_types.h:603-736 | prints are equal exactly when the factory calls are, GetGlobalBcast being one GetGlobal |
| DomainQueries.PrintRecoversTop | include/test_networks/chimaera_types.h:603-736 | for calls with any number of iteration flags, prints are equal exactly when the calls are once each keeps only its first iteration flag |
| DomainQueries.TwoFlagsCollide | include/test_networks/chimaera_types.h:700-709 | each call with more than one iteration flag builds another query than, and prints like, the call with the first of them |

## Left out

- Runs.StopReturns: does not say that `StopAllDaemons` returns in every run, because node 1 may finalise the client engine while the driver still sends stops or waits, and what thallium then does belongs to thallium; `Shutdown` says when it can return and who goes down when it does not.
- Launcher.RoundTripIffNoQuote: a command whose unquoted part holds an expansion or a pattern has an outcome of its own, which is not the words; what a shell would make of it is not modelled, and it could be the words. Neither is a second shell on the far side of pssh.
- A server that dies in a fatal log is one that takes no further step; it is not told apart from a slow one.
- Calls lost when `PingAll` gives up waiting: the ping tests are not part of the step machine.
- Exceptions in `PingAll` that are not margo's: they end the driver, and a failed call here is one that margo reports.
- Memory reclamation: nothing shown frees a buffer or acts on `DT_FREE_DATA`.
- libfabric, DNS, MPI transport, thallium and margo internals, logging, wall-clock rates.
- `GetRpcAddress`, which forms the string an engine listens on; the copy and move members; identifiers and their hashes.
- `PingInit`, `chi_net_ping.cc` and `fullping.cc`: a six-argument configuration, a ping program that marks a running server by a shared-memory segment, and one that probes every libfabric provider.
- Full equality of queries, which compares parts of the union that the factories leave unset.
- The rest of `pkg.py`: menus, network lookup, process launch and kill.
