# A verified model of the memory controller bench and its UVM library

The repository holds a pipelined memory controller with a UVM testbench around it, and the UVM library the
testbench runs on. This project models the parts of both whose behaviour is hardest to see from the code, and
proves what they promise.

- **Controller, monitor, scoreboard, driver** (`Memory*.dfy`). One step is one rising edge on which every component
  sees the values from before. The overlapped pipeline, seen through the monitor, is an atomic memory; the bench can
  be trusted exactly when every reset finds the pipeline quiet; three empty edges drain it. Addresses and controls
  are two-state, data words four-state, and `ready` and the pending flag may be undefined before the first reset.
- **Factory** (`Scans`, `Chains`, `Factory*.dfy`). Override calls rewrite a queue in place and leave early; searches
  by name and by type call each other. After any history the overrides that apply to a path answer as a plain table
  replayed in call order, a whole search is a walk along that table, and it ends exactly when the table does not lead
  round in a circle. `FactoryCreation` says of the calls themselves which of them decides what is created. The
  library's documentation says that a loop is reported and ends the search; the code compares against a list that is
  always empty when it looks, and `MutualOverridesNeverEnd` is a pair of calls after which a search goes on for ever.
- **Glob translation** (`GlobTranslator`, `Ere`, `GlobMeaning`, `GlobSyntax`, `GlobLimits`). The translator as loops
  over its buffer, exactly which globs it accepts, POSIX extended regular expressions (section 9.4 of the Base
  Definitions of IEEE Std 1003.1) as tokens, parse trees and matching, and the proof that the text emitted for a glob
  has one parse tree and the meaning of the glob: of the globs without a backslash, exactly for those without any of
  `^ $ | {`, which are copied as they stand. The standard leaves a quoted `]` undefined; it is taken to stand for
  itself.
- **Compatibility packer** (`Bits`, `PackerModel`, `PackerRoundTrip`, `PackerLayout`, `CompatPacker`). Where every bit
  goes, and that fields, arrays of bits, bytes and ints, and strings come back through any export and in either bit
  order, exactly if the buffer drops no bit that is set.
- **Polling** (`PollingModel`, `PollingOrder`, `PollingHooks`). The linked list of changed signals, the notifier and
  the process that drains the list, newest change first, in every interleaving. The code's own comment says that no
  notification can be missed. The code reports a fatal error exactly when a change comes before the notifier has been
  set up. By default that report ends the simulation; in a run that is told to go on, that notification and all later
  ones are missed.
- **Barrier over event** (`BarrierModel`, `BarrierComponents`). Counts, conservation of processes, exactly when a
  process is freed or stranded, and groups of exactly the threshold. Processes have names, so that the processes left
  on a replaced event object can be told apart.
- **Typewide callbacks** (`CallbackForest`, `CallbackModel`, `CallbackRegistry`). When the recursion over the type
  forest ends, which queues it reaches, and when a deletion takes a registration back.
- **Component hierarchy** (`ComponentNames`, `ComponentTree`). Full names and lookup are inverse exactly for names
  without dots and wildcards, and two full names agree exactly when their paths do, cut at all dots. The number in a
  generated name counts all objects, so it is a parameter.
- **Signal words** (`HdlWords`, `SignalWords`). Printing, parsing and chunking of signal values wider than a word,
  with the exact conditions under which the top word is right. Where the documentation of the chunk reader promises an
  error for a chunk beyond the end, the code returns the last one, and so does the model.

Objects whose methods change their fields are classes here, and every method of theirs is tied to a function on
values; the properties of whole runs are proved about those functions.

## Model

| member | source | states |
|---|---|---|
| MemoryRefinement.RefinesAtomicMemory | rtl/memory_controller.sv:48-123 | on every run with quiet resets the monitor publishes the presented requests in order, each once, at most two behind, with the data an atomic zeroed memory returns, and the scoreboard never objects |
| MemoryRefinement.RunTracks | rtl/memory_controller.sv:93-121 | after every edge the monitor queue is the completed request, if ready is high, then the pending one, if pending is high, and the memory is the reference with the requests performed so far |
| MemoryRefinement.ControllerEdgeTracks | rtl/memory_controller.sv:93-121 | one edge of the controller performs the pending request and captures the next one, in step with the reference |
| MemoryRefinement.MonitorEdgeTracks | tb/uvm/monitor/memory_monitor.sv:44-74 | one edge of the monitor queues the request on the pins and publishes the oldest one when ready is seen, with the data the reference returns |
| MemoryRefinement.ScoreHistory | tb/uvm/scoreboard/memory_scoreboard.sv:22-68 | the scoreboard accepts every history of an atomic memory and ends with its contents |
| MemoryRefinement.QueueLength | tb/uvm/monitor/memory_monitor.sv:58-73 | on every run, whatever the resets, the monitor queue is longer than what the controller holds by exactly the requests that resets threw away |
| MemoryRefinement.InStepIffQuietResets | rtl/memory_controller.sv:50-60 | monitor and controller stay in step exactly when every reset edge found valid and pending low |
| MemoryRefinement.ReadyTwoEdgesLater | assertions/memory_assertions.sv:10-22 | without reset, ready is high two edges after exactly the edges that saw valid high |
| MemoryRefinement.ResetForgets | rtl/memory_controller.sv:50-60 | after any run a reset edge leaves ready low, the read port zero and no request, and the memory as it was |
| MemoryRefinement.NothingThroughReset | rtl/memory_controller.sv:50-60 | no request presented before or during a reset is performed after it |
| MemoryRefinement.ReadShowsMemory | rtl/memory_controller.sv:93-121 | two edges after a read was presented ready is high and the read port shows what the memory held when it was performed |
| MemoryRefinement.WriteReachesMemory | rtl/memory_controller.sv:93-121 | two edges after a write was presented ready is high and the memory differs in that word only |
| MemoryRefinement.ReadPortHolds | rtl/memory_controller.sv:93-121 | the read port keeps its value until the next read is performed |
| MemoryRefinement.CapturesRequest | rtl/memory_controller.sv:112-121 | a valid request is captured from the pins; without one nothing is pending and the registers keep the last |
| MemoryRefinement.PublishesAtOnce | tb/uvm/monitor/memory_monitor.sv:58-74 | a request that shows up together with ready, while nothing is in flight, is itself published |
| MemoryRefinement.RecordsRequest | tb/uvm/monitor/memory_monitor.sv:58-66 | a request is recorded with its data only if it is a write and with no result yet |
| MemoryTrust.VerdictIsExact | tb/uvm/scoreboard/memory_scoreboard.sv:15-68 | for any stream of transactions from any controller the scoreboard reports no error if and only if every read returns the latest earlier write to its address, or zero |
| MemoryTrust.OneErrorPerWrongRead | tb/uvm/scoreboard/memory_scoreboard.sv:22-68 | the number of errors is the number of reads that do not return the latest write |
| MemoryTrust.NeverWrittenReadsZero | rtl/memory_controller.sv:28-32 | an address never written reads as zero in all 32 bits |
| MemoryTrust.PublishedIsLegal | tb/uvm/monitor/memory_monitor.sv:44-74 | what the monitor publishes on a run with quiet resets is a legal sequential history |
| MemoryTrust.StaleEntryShows | tb/uvm/monitor/memory_monitor.sv:68-73 | once the monitor queue holds a request that a reset threw away, some continuation without any reset makes the scoreboard report an error |
| MemoryTrust.TrustedIffQuietResets | rtl/memory_controller.sv:50-60 | the scoreboard can never object later exactly when all resets of the run so far were quiet |
| MemoryDrain.OneEdgePerItem | tb/uvm/driver/memory_driver.sv:33-53 | an item handed over at one edge is on the sampled pins at the next edge; an empty cycle lowers valid and leaves the other pins as they are |
| MemoryDrain.CaughtUpIffIdle | tb/uvm/driver/memory_driver.sv:84-92 | everything accepted has been published but for what the controller holds; with an idle controller nothing is in flight and nothing was objected to |
| MemoryDrain.DrainedIffThreeEdges | tb/uvm/driver/memory_driver.sv:84-92 | after the last item everything has been scored once and in order exactly from the third empty edge on, so the default of four suffices |
| MemoryComponents.MemoryController.constructor | rtl/memory_controller.sv:28-32 | the memory starts all zero, the registers hold anything |
| MemoryComponents.MemoryController.ClockEdge | rtl/memory_controller.sv:48-123 | the clocked block, with its registers and memory updated in place, performs the edge of the model |
| MemoryComponents.MemoryMonitor.Sample | tb/uvm/monitor/memory_monitor.sv:44-74 | one turn of the monitor loop on its queue performs the edge of the model |
| MemoryComponents.MemoryScoreboard.constructor | tb/uvm/scoreboard/memory_scoreboard.sv:8-19 | the expected memory is all zero |
| MemoryComponents.MemoryScoreboard.Write | tb/uvm/scoreboard/memory_scoreboard.sv:22-68 | a write is recorded and a read compared, in place, as in the model |
| MemoryComponents.MemoryDriver.ClockEdge | tb/uvm/driver/memory_driver.sv:33-53 | one item or an empty cycle is put on the pins |
| MemoryComponents.TestBench.ClockEdge | tb/interface/memory_if.sv:18-46 | all components see the values from before the edge |
| MemoryComponents.TestBench.Play | tb/uvm/driver/memory_driver.sv:33-53 | the loop over a finite stretch of edges performs the run of the model |
| MemoryComponents.TestBench.WaitIdle | tb/uvm/driver/memory_driver.sv:90-92 | waiting counts the given number of edges, four by default |
| MemoryComponents.TestBench.Reset | tb/tb_top.sv:118-129 | the reset line is held high for some edges and then falls, with the pins idle |
| MemoryComponents.TestBench.RunTest | tb/uvm/driver/memory_driver.sv:84-92 | a test that sits through any number of reset edges, plays its items and waits the default time ends with exactly their reference history published, in which every read returns the latest write, and no error |
| FactoryTable.ScanIsTableLookup | uvm-core/src/base/uvm_factory.svh:1114-1284 | after any history of calls, by type or by name, with types registered before, after or never, the scan picks for any request what a plain map holds that was written in call order |
| FactoryTable.ReplayAgrees | uvm-core/src/base/uvm_factory.svh:1114-1284 | the revised and partly obsolete queue of type overrides answers as the replayed map for every key |
| FactoryTable.ReplayConsistent | uvm-core/src/base/uvm_factory.svh:1058-1108 | after any history every override refers to registered types, or to names not registered yet |
| FactoryTable.RefreshAgrees | uvm-core/src/base/uvm_factory.svh:1058-1108 | registering a type that earlier overrides only named changes no answer |
| FactoryTable.ByTypeAgrees | uvm-core/src/base/uvm_factory.svh:1114-1194 | an override by type writes the map entry of its type, over an existing one only if it replaces |
| FactoryTable.ByNameAgrees | uvm-core/src/base/uvm_factory.svh:1200-1284 | an override by name writes the entry of the name, over an existing one only if it replaces |
| FactoryWalk.SearchIsTableWalk | uvm-core/src/base/uvm_factory.svh:1677-1894 | for any request at any path, after any history, the search ends within a number of steps exactly when the walk along the table of that path does, at the same type |
| FactoryWalk.SearchEndsIffTableEnds | uvm-core/src/base/uvm_factory.svh:1677-1894 | the two searches, which call each other, end if and only if the table that the calls wrote does not lead from the request round in a circle |
| FactoryWalk.MutualOverridesNeverEnd | uvm-core/src/base/uvm_factory.svh:1777-1894 | two types overridden with each other make the search for one of them endless |
| FactoryWalk.SelectionIsTableLookup | uvm-core/src/base/uvm_factory.svh:1785-1850 | what a search selects at a path is what a plain table holds in which type overrides are replayed in call order and the first instance override that applies goes before them |
| FactoryWalk.HopIsTableStep | uvm-core/src/base/uvm_factory.svh:1677-1894 | one step of the search is one step along that table |
| FactoryWalk.InstReplayAgrees | uvm-core/src/base/uvm_factory.svh:1289-1420 | the queue of instance overrides answers, for every key at every path, as a table in which the first call for a type counts |
| FactoryCreation.LastReplacingDecides | uvm-core/src/base/uvm_factory.svh:1114-1194 | the last replacing override of a type decides what is created, whatever was called before, where there is no instance override for it |
| FactoryCreation.LastReplacingByNameDecides | uvm-core/src/base/uvm_factory.svh:1200-1284 | so does one by name |
| FactoryCreation.FirstKeepingDecides | uvm-core/src/base/uvm_factory.svh:1114-1194 | an override that does not replace decides only if it is the first |
| FactoryCreation.OverridesChain | uvm-core/src/base/uvm_factory.svh:1777-1894 | if a is overridden with b and b with v, creating a creates v |
| FactoryCreation.OverriddenWithItself | uvm-core/src/base/uvm_factory.svh:1200-1214 | overriding a type with itself takes its overrides back; by name such a call changes nothing |
| FactoryCreation.NothingOverridden | uvm-core/src/base/uvm_factory.svh:1777-1894 | a registered type that no call overrides is created as it is |
| FactoryCreation.NothingOverriddenByName | uvm-core/src/base/uvm_factory.svh:1489-1528 | by its name the search finds nothing then, and creation falls back on the type itself |
| FactoryCreation.UnknownNameCreatesNothing | uvm-core/src/base/uvm_factory.svh:1489-1528 | under a name that is neither registered nor overridden nothing is created |
| FactoryCreation.InstanceDecidesIff | uvm-core/src/base/uvm_factory.svh:1318-1359 | an instance override decides at exactly the paths it is for: the one it names, or, if it has a wildcard, those that match |
| FactoryCreation.InstanceBeforeType | uvm-core/src/base/uvm_factory.svh:1785-1850 | and it does so before type overrides |
| FactoryCreation.FirstInstanceDecides | uvm-core/src/base/uvm_factory.svh:1785-1850 | of two instance overrides for a path the first decides |
| FactoryCreation.InstanceByNameDecides | uvm-core/src/base/uvm_factory.svh:1365-1420 | an instance override by name does the same |
| FactoryCreation.FoundByName | uvm-core/src/base/uvm_factory.svh:1058-1108 | a registered type is found by the name it reports unless that is empty or unknown |
| FactoryCreation.NameStays | uvm-core/src/base/uvm_factory.svh:1058-1108 | a name stays with the first type registered under it, even if others report the same |
| FactoryCreation.EarlyExits | uvm-core/src/base/uvm_factory.svh:1200-1284 | a call by an unregistered name puts a new entry in front if the first one is not for that name, whatever stands behind it |
| FactoryCreation.EarlyExitsByType | uvm-core/src/base/uvm_factory.svh:1114-1194 | a call by type looks no further than an entry for a type that is not registered |
| FactoryCreation.CreateAtInstance | uvm-core/src/base/uvm_factory.svh:1489-1560 | below a parent, an instance override for parent, dot, name decides what the object creates, by type and by name |
| FactoryCreation.CreateAtEnd | uvm-core/src/base/uvm_factory.svh:1496-1510 | without a parent, or without a name, the override has to be for the other alone |
| FactoryCreation.CreateElsewhere | uvm-core/src/base/uvm_factory.svh:1489-1560 | an override for any other path, the parent alone included, does not apply there |
| FactoryResolution.SearchEndsIffAcyclic | uvm-core/src/base/uvm_factory.svh:1677-1894 | whatever the state of the factory, a search that ends does so within as many steps as there are overrides |
| FactoryResolution.FoundTypeIsFinal | uvm-core/src/base/uvm_factory.svh:1777-1894 | a search ends at a type whose only applicable override is none or itself |
| FactoryResolution.NothingIffUnregistered | uvm-core/src/base/uvm_factory.svh:1677-1894 | from a registered type the search comes to nothing exactly when its chain ends in a name that is not registered |
| FactoryResolution.ByNameIsByType | uvm-core/src/base/uvm_factory.svh:1489-1560 | creating by name and by type select the same wrapper where the chain ends in a type; where it does not, only creation by name falls back on the type itself |
| FactoryResolution.FirstInstanceFirst | uvm-core/src/base/uvm_factory.svh:1785-1850 | the first registered instance override that matches is chosen before every type override |
| FactoryResolution.PickTypeOrder | uvm-core/src/base/uvm_factory.svh:1785-1850 | among matching type overrides the newest that replaces is chosen, failing that the oldest |
| FactoryResolution.NoMatchNoPick | uvm-core/src/base/uvm_factory.svh:1785-1850 | no type override is chosen exactly when none matches |
| FactoryEngine.DefaultFactory.Register | uvm-core/src/base/uvm_factory.svh:1058-1108 | registration files the type under its name if the name is free and completes the overrides that only named it |
| FactoryEngine.DefaultFactory.SetTypeOverrideByType | uvm-core/src/base/uvm_factory.svh:1114-1194 | both types are registered, then the queue is scanned newest first with the early exits, or gets a new first entry |
| FactoryEngine.DefaultFactory.SetTypeOverrideByName | uvm-core/src/base/uvm_factory.svh:1200-1284 | the same scan by name; overriding a name with itself is ignored |
| FactoryEngine.DefaultFactory.InstOverrideExists | uvm-core/src/base/uvm_factory.svh:1289-1313 | an instance override with the same path and types is found if there is one |
| FactoryEngine.DefaultFactory.SetInstOverrideByType | uvm-core/src/base/uvm_factory.svh:1318-1359 | a new instance override goes to the end of the queue, a repeated one is dropped |
| FactoryEngine.DefaultFactory.SetInstOverrideByName | uvm-core/src/base/uvm_factory.svh:1365-1420 | the same by name, with the types the names resolve to |
| FactoryEngine.DefaultFactory.SelectOverride | uvm-core/src/base/uvm_factory.svh:1785-1850 | the loops over instance and type overrides choose what the search selects |
| FactoryEngine.DefaultFactory.FindOverrideByName | uvm-core/src/base/uvm_factory.svh:1677-1771 | the recursive search by name returns the end of the chain |
| FactoryEngine.DefaultFactory.FindOverrideByType | uvm-core/src/base/uvm_factory.svh:1777-1894 | the recursive search by type returns the end of the chain |
| FactoryEngine.DefaultFactory.CreateObjectByName | uvm-core/src/base/uvm_factory.svh:1489-1528 | creation by name searches at parent, dot, name, or at the one of the two that is not empty, and falls back on the registered name |
| FactoryEngine.DefaultFactory.CreateObjectByType | uvm-core/src/base/uvm_factory.svh:1534-1560 | creation by type searches at parent, dot, name, or at the one of the two that is not empty |
| FactoryEngine.Configure | uvm-core/src/base/uvm_factory.svh:1058-1420 | a factory driven through any history of calls is in the state the history replays to |
| Scans.ScanLeavesAt | uvm-core/src/base/uvm_factory.svh:1155-1190 | a scan that leaves at an entry has rewritten the matches before it and nothing else |
| Scans.ScanInPlace | uvm-core/src/base/uvm_factory.svh:1155-1190 | the loop over the queue, rewriting entries in place and leaving early, is the scan |
| Chains.TerminatesIffAcyclic | uvm-core/src/base/uvm_factory.svh:1677-1894 | a search with finitely many places to go ends exactly when it never asks for the same thing twice |
| GlobMeaning.TranslationMeansTheGlob | uvm-core/src/dpi/uvm_regex.cc:111-211 | for a glob without characters special to regular expressions only, and not slash-bracketed, the emitted text has exactly one parse tree and finds exactly the strings the glob matches |
| GlobMeaning.RegexMeaning | uvm-core/src/dpi/uvm_regex.cc:136-178 | the regular expression of a glob is found in a string exactly when the whole string matches the glob |
| GlobSyntax.MeaningKeptIffClean | uvm-core/src/dpi/uvm_regex.cc:111-211 | for every accepted glob without a backslash, and not slash-bracketed, the emitted text has one parse tree and finds exactly the strings the glob matches if and only if the glob has no caret, dollar sign, bar or opening brace |
| GlobSyntax.CoreKeptIffClean | uvm-core/src/dpi/uvm_regex.cc:111-211 | and where a caret at its start and a dollar sign at its end are taken for the anchors they become, if and only if there is none of these characters anywhere else |
| GlobSyntax.FindsForeign | uvm-core/src/dpi/uvm_regex.cc:173-177 | for a glob with one of these characters, if a parse of the text finds anything at all it finds a string the glob does not match |
| GlobSyntax.BarFindsForeign | uvm-core/src/dpi/uvm_regex.cc:173-177 | a bar is copied unquoted: every parse of the text of such a glob finds a string the glob does not match |
| GlobMeaning.BarIsNotLiteral | uvm-core/src/dpi/uvm_regex.cc:173-177 | the text for a|b, for one, has a parse that finds ax |
| Ere.BranchUnique | uvm-core/src/dpi/uvm_regex.cc:136-178 | a regular expression without groups and alternatives has one parse tree for its tokens |
| GlobTranslator.Deglob | uvm-core/src/dpi/uvm_regex.cc:65-215 | for every glob on which the code stays in its buffer the translator returns the translation, or nothing when its running length exceeds the limit, and leaves the text terminated in the buffer |
| GlobTranslator.InBoundsIffFits | uvm-core/src/dpi/uvm_regex.cc:136-178 | the writes of the main loop stay in the buffer if and only if the glob is translated with brackets, or does not start with a caret, or is no longer than the buffer, or has a two-character piece before its end |
| GlobTranslator.LongPlainGlobOverruns | uvm-core/src/dpi/uvm_regex.cc:136-178 | a glob outside that condition is written to the index behind the buffer |
| GlobTranslator.OnePiece | uvm-core/src/dpi/uvm_regex.cc:140-177 | one turn of the loop writes one piece inside the buffer or gives up over the running length |
| GlobTranslator.Expand | uvm-core/src/dpi/uvm_regex.cc:111-133 | opening bracket and anchor are written and counted before the main loop |
| GlobTranslator.Pieces | uvm-core/src/dpi/uvm_regex.cc:136-178 | the main loop writes one piece for each character inside the buffer and gives up exactly when the translation does |
| GlobTranslator.BudgetCovers | uvm-core/src/dpi/uvm_regex.cc:136-178 | at every turn the running length is what has been written, the input left to read and one for every two-character piece so far |
| GlobTranslator.Close | uvm-core/src/dpi/uvm_regex.cc:185-209 | closing anchor, bracket and terminator are written while the running length allows |
| GlobTranslator.BudgetVersusText | uvm-core/src/dpi/uvm_regex.cc:144-166 | the final running length charges every two-character piece one more than it takes |
| GlobTranslator.BracketedFormIsRegex | uvm-core/src/dpi/uvm_regex.cc:95-109 | whenever the bracketed form succeeds, translating it again without brackets gives the unbracketed translation of the original |
| GlobLimits.AcceptedIff | uvm-core/src/dpi/uvm_regex.cc:111-209 | a glob not between slashes is translated if and only if its length, two for each character that is doubled, one for each anchor and slash added and one for the end come to at most 2048 |
| GlobLimits.RegexPassedOn | uvm-core/src/dpi/uvm_regex.cc:95-109 | a regular expression between slashes is passed on without them if it has at most 2048 characters |
| GlobLimits.EmptyGlobs | uvm-core/src/dpi/uvm_regex.cc:83-92 | the empty glob and a lone slash become the expression of the empty string |
| GlobLimits.PlainIsCopied | uvm-core/src/dpi/uvm_regex.cc:174-177 | characters without a meaning to the translator are copied, a backslash included |
| GlobLimits.OneMatches | uvm-core/src/dpi/uvm_regex.cc:140-177 | a star matches anything, a plus anything but nothing, a question mark one character, and every other character itself |
| GlobLimits.MatchesSplits | uvm-core/src/dpi/uvm_regex.cc:136-178 | a glob matches what splits into a part its front matches and one its last character matches |
| GlobLimits.NothingMatchesNothing | uvm-core/src/dpi/uvm_regex.cc:83-92 | the empty glob matches the empty string only |
| PackerRoundTrip.RoundTrip | uvm-core/compat/uvm_compat_packer.svh:56-420 | any mixed sequence of fields, bit, byte and int arrays, each with its size, and zero-free strings, exported bit by bit or in bytes, ints or longints, imported again and unpacked with the same sizes, comes back, in either bit order |
| PackerRoundTrip.ReadBackAll | uvm-core/compat/uvm_compat_packer.svh:285-420 | unpacking in order gives back of every item the bits that its size asked for, whatever follows |
| PackerRoundTrip.WholeIsDelivered | uvm-core/compat/uvm_compat_packer.svh:173-261 | a field of its own size and an array packed as a whole arrive as they are |
| Bits.FlattenIsInjective | uvm-core/compat/uvm_compat_packer.svh:205-227 | two byte or int arrays of one length with the same bits are the same array |
| PackerRoundTrip.StringNeedsTerminator | uvm-core/compat/uvm_compat_packer.svh:394-420 | without the terminating byte a string comes back exactly when what follows starts with a zero byte or is shorter than one |
| PackerModel.ImportOfExport | uvm-core/compat/uvm_compat_packer.svh:68-137 | importing what was exported gives the payload back, followed by less than a word of zeros |
| PackerModel.WrittenAppends | uvm-core/compat/uvm_compat_packer.svh:147-158 | packing appends to the payload as long as the buffer has room |
| PackerModel.TakenIsFront | uvm-core/compat/uvm_compat_packer.svh:285-296 | unpacking takes bits from the front of what is left |
| CompatPacker.Packer.Flush | uvm-core/src/base/uvm_packer.svh:417-428 | flushing zeroes the buffer and sets both positions behind the header |
| CompatPacker.Packer.PackField | uvm-core/compat/uvm_compat_packer.svh:147-171 | the low bits of a value, and zeros where the size goes beyond it, are written in the order that the endianness asks for |
| CompatPacker.Packer.PackBits | uvm-core/compat/uvm_compat_packer.svh:173-195 | an array of bits is written, all of it or the first ones; too large a size is refused |
| CompatPacker.Packer.PackBytes | uvm-core/compat/uvm_compat_packer.svh:197-228 | the same for bytes, counted in bits |
| CompatPacker.Packer.PackInts | uvm-core/compat/uvm_compat_packer.svh:230-261 | the same for ints, counted in bits |
| CompatPacker.Packer.PackString | uvm-core/compat/uvm_compat_packer.svh:263-283 | the characters are written, then a zero byte if metadata is on |
| CompatPacker.Packer.UnpackField | uvm-core/compat/uvm_compat_packer.svh:285-309 | a field is read back, or zero if too few bits are left |
| CompatPacker.Packer.UnpackBits | uvm-core/compat/uvm_compat_packer.svh:311-332 | an array of bits is filled from what is left, elements beyond the size stay |
| CompatPacker.Packer.UnpackBytes | uvm-core/compat/uvm_compat_packer.svh:334-360 | the same for bytes |
| CompatPacker.Packer.UnpackInts | uvm-core/compat/uvm_compat_packer.svh:362-387 | the same for ints |
| CompatPacker.Packer.UnpackString | uvm-core/compat/uvm_compat_packer.svh:394-420 | characters are read up to a zero byte, which is skipped |
| CompatPacker.Packer.GetPackedBits | uvm-core/compat/uvm_compat_packer.svh:58-66 | the payload is exported bit by bit |
| CompatPacker.Packer.GetPackedWords | uvm-core/compat/uvm_compat_packer.svh:68-96 | the payload is exported as bytes, ints or longints, the last one filled up with zeros |
| CompatPacker.Packer.SetPackedBits | uvm-core/compat/uvm_compat_packer.svh:104-122 | an imported stream is what is left to unpack, as far as the buffer holds it |
| CompatPacker.Packer.SetPackedWords | uvm-core/compat/uvm_compat_packer.svh:124-145 | imported words are what is left to unpack, as far as the buffer holds them |
| CompatPacker.Transfer | uvm-core/compat/uvm_compat_packer.svh:56-420 | two packers, one filled by the pack calls and exported through any stream, the other imported and read by the matching unpack calls, agree on every item exactly when the buffer drops no bit that is set |
| PackerRoundTrip.RoundTripIffNothingLost | uvm-core/compat/uvm_compat_packer.svh:56-420 | however much is packed, everything comes back if and only if all bits beyond the buffer are zero |
| PackerLayout.BufferLayout | uvm-core/compat/uvm_compat_packer.svh:58-66 | what is packed after a flush stands from bit 64 on, up to bit 32767, and the export begins there |
| PackerLayout.StreamLayout | uvm-core/compat/uvm_compat_packer.svh:104-122 | an imported stream is read from its first bit on, with zeros beyond the 32768 bits |
| PackerLayout.RoomFor | uvm-core/compat/uvm_compat_packer.svh:147-158 | nothing is lost exactly if no bit from 32704 on is set |
| PackerLayout.ItemsLayout | uvm-core/compat/uvm_compat_packer.svh:147-283 | items stand one behind the other in the order they are packed |
| PackerLayout.OneItem | uvm-core/compat/uvm_compat_packer.svh:147-283 | one item alone is packed as its bits |
| PackerLayout.ExportAt | uvm-core/compat/uvm_compat_packer.svh:68-94 | word k of an export holds the k-th stretch of the payload, its lowest bit first, or last in the other order, with zeros behind the end |
| PackerLayout.ImportAt | uvm-core/compat/uvm_compat_packer.svh:124-143 | an import puts the bits of word k at the k-th stretch in the same way |
| PackerLayout.FieldLayout | uvm-core/compat/uvm_compat_packer.svh:147-158 | a field is packed with its lowest bit first, or last in the other order, and zeros beyond the value |
| PackerLayout.ArrayLayout | uvm-core/compat/uvm_compat_packer.svh:173-195 | an array is packed as far as its size asks for, as a whole if that is negative and not at all if there are too few bits, in either order |
| PackerLayout.FlatLayout | uvm-core/compat/uvm_compat_packer.svh:197-261 | the bits of an array of bytes or ints are those of its words, the first word first and in it the lowest bit |
| PackerLayout.WordArrayLayout | uvm-core/compat/uvm_compat_packer.svh:197-261 | an array of bytes or ints is packed as the array of its bits |
| PackerLayout.StringLayout | uvm-core/compat/uvm_compat_packer.svh:263-283 | a string is packed as eight bits for each character in the chosen order and eight zeros if there is metadata |
| PackerLayout.FieldReads | uvm-core/compat/uvm_compat_packer.svh:285-296 | a field is read from the next bits in the chosen order; if there are too few it is zero and none is taken |
| PackerLayout.ArrayReads | uvm-core/compat/uvm_compat_packer.svh:311-388 | an array gets the next bits in the chosen order; if it is too short or they are too few nothing is taken |
| PackerLayout.StringReads | uvm-core/compat/uvm_compat_packer.svh:390-420 | the characters of a string are read from eight bits each in the chosen order, and none of them is zero |
| PackerLayout.StringEnds | uvm-core/compat/uvm_compat_packer.svh:390-420 | it is read up to the first eight zeros or until fewer than eight bits are left |
| PackerLayout.StringTakes | uvm-core/compat/uvm_compat_packer.svh:390-420 | with a string the eight bits behind it are taken, if there are eight |
| PollingModel.NoLostWakeUp | uvm-core/src/dpi/uvm_hdl_polling.c:422-468 | in every interleaving after the notifier is set up, waiting changes have a wake-up pending or are being drained if and only if no change was reported before the set-up; that is exactly when no fatal report was made, and in a run that goes on past it nothing is ever notified |
| PollingModel.EarlyChangeIsLost | uvm-core/src/dpi/uvm_hdl_polling.c:422-468 | a change, then the set-up, then any events: the fatal report was made, something waits for ever and nothing is notified |
| PollingModel.EarlyProbeIsLost | uvm-core/src/base/uvm_hdl_polling.svh:110-122 | the same after a probe is made whose signal changes before the set-up, whatever events and probes come later |
| PollingModel.BenchIsTrace | uvm-core/src/base/uvm_hdl_polling.svh:257-306 | probes made between the events decide which changes can come and nothing else |
| PollingModel.ChangesAreWatched | uvm-core/src/base/uvm_hdl_polling.svh:257-306 | only signals that a probe was made for change |
| PollingOrder.NewestFirst | uvm-core/src/dpi/uvm_hdl_polling.c:300-328 | in every interleaving, of two waiting signals the one that has waited for the shorter time is notified first |
| PollingOrder.BatchBackwards | uvm-core/src/dpi/uvm_hdl_polling.c:300-328 | a batch of changes of different signals is notified from the last to the first |
| PollingOrder.SecondFirst | uvm-core/src/dpi/uvm_hdl_polling.c:300-328 | of two signals that change one after the other the second is notified first |
| PollingOrder.RaisedGoFirst | uvm-core/src/dpi/uvm_hdl_polling.c:300-328 | changes raised inside a notification are notified next, from the last to the first, before whatever was waiting already |
| PollingModel.AttendedIsServiced | uvm-core/src/dpi/uvm_hdl_polling.c:655-660 | left alone, the woken process notifies each waiting change once, newest first, and waits again |
| PollingModel.QuietDrain | uvm-core/src/dpi/uvm_hdl_polling.c:655-660 | a drain without changes from inside notifies exactly the waiting probes, each once, newest first |
| PollingModel.WaitingIsNotified | uvm-core/src/dpi/uvm_hdl_polling.c:655-660 | whatever waits is notified before the drain ends, whatever user callbacks change meanwhile |
| PollingModel.RaisedIsNotified | uvm-core/src/dpi/uvm_hdl_polling.c:655-660 | a change raised inside a notification is notified by a later one of the same drain |
| PollingModel.NotifiedHasCause | uvm-core/src/dpi/uvm_hdl_polling.c:655-660 | nothing is notified that did not wait and was not raised by an earlier notification |
| PollingHooks.Polling.GetNewestEntry | uvm-core/src/dpi/uvm_hdl_polling.c:303-311 | the head of the list, which is its newest entry, is taken off |
| PollingHooks.Polling.PushIfNeeded | uvm-core/src/dpi/uvm_hdl_polling.c:318-327 | a record that is not on the list is linked in front of it |
| PollingHooks.Polling.ValueChangeCallback | uvm-core/src/dpi/uvm_hdl_polling.c:441-468 | the notifier is toggled exactly by the change that finds the list empty; a bad handle or a missing notifier fails |
| PollingHooks.Polling.ValueChangeNotify | uvm-core/src/base/uvm_hdl_polling.svh:96-103 | the key in any record leads to the probe the record was made for |
| PollingHooks.Polling.ProcessChangelist | uvm-core/src/dpi/uvm_hdl_polling.c:655-660 | the drain loop empties the list and notifies the right probes in the order of the model, changes raised by their callbacks included |
| PollingHooks.Polling.CreateProbe | uvm-core/src/base/uvm_hdl_polling.svh:257-306 | a probe gets the next key, which is used up even when the signal is not found, and its record leads back to it |
| PollingHooks.Polling.GetPoll | uvm-core/src/base/uvm_hdl_polling.svh:110-122 | a known path returns the probe made for it last, another one a new probe; no other record changes its probe |
| PollingHooks.HookRecord.SetEnableCallback | uvm-core/src/dpi/uvm_hdl_polling.c:476-503 | enabling and disabling are idempotent |
| PollingHooks.Polling.Step | uvm-core/src/base/uvm_hdl_polling.svh:67-87 | every event on the linked list and the notifier bit is the step of the model |
| PollingHooks.Polling.Play | uvm-core/src/dpi/uvm_hdl_polling.c:441-468 | any interleaving of events and of probes being made, over the linked list and the maps, ends as in the model, with no wake-up lost exactly when no change came before the set-up |
| BarrierModel.CountsStayValid | uvm-core/src/base/uvm_barrier.svh:77-210 | over every run of calls the counts of barrier and event agree and are zero or below the threshold |
| BarrierModel.NobodyVanishes | uvm-core/src/base/uvm_barrier.svh:77-210 | over every run each process that arrived is exactly one of freed, suspended, stranded or killed |
| BarrierModel.StrandedForever | uvm-core/src/base/uvm_event.svh:206-219 | a process left on a dropped event object never comes back |
| BarrierModel.ResetStrandsAll | uvm-core/src/base/uvm_barrier.svh:114-130 | after any run a reset that does not wake, with a count that is not zero, sets no one free and leaves everyone suspended behind on the old event |
| BarrierModel.StrandedIff | uvm-core/src/base/uvm_barrier.svh:114-130 | a process is stranded after a run if and only if such a reset came while it was suspended |
| BarrierModel.FreedIff | uvm-core/src/base/uvm_barrier.svh:77-172 | a process is free after a run if and only if it arrived when no one had to wait any more, or an arrival, waking reset or lower threshold that triggers the event came while it was suspended on it |
| BarrierModel.ResetDecides | uvm-core/src/base/uvm_barrier.svh:114-130 | one waiting process is stranded for good by a reset that does not wake and set free by one that does |
| BarrierModel.CountIsSuspended | uvm-core/src/base/uvm_barrier.svh:201-204 | if every killed waiter, and no one else, is cancelled at once, the count is the number of suspended processes |
| BarrierModel.WakingResetWakesAll | uvm-core/src/base/uvm_barrier.svh:114-130 | after any run in which every killed waiter, and no one else, is cancelled at once, a waking reset sets exactly the suspended processes free and leaves no one behind |
| BarrierModel.SpuriousCancelStrands | uvm-core/src/base/uvm_barrier.svh:201-204 | a cancel without a dead waiter can leave a process suspended through a waking reset |
| BarrierModel.FreedInGroups | uvm-core/src/base/uvm_barrier.svh:77-100 | with a fixed threshold and automatic reset the arrivals are the freed groups of exactly the threshold, in order, then the current waiters |
| BarrierModel.GroupIsStretch | uvm-core/src/base/uvm_barrier.svh:77-100 | the k-th group freed is the k-th stretch of the arrivals |
| BarrierModel.SurvivorsFreedInGroups | uvm-core/src/base/uvm_barrier.svh:77-204 | with waiters killed and cancelled at once the groups still have exactly the threshold, and groups and waiters, in order, are the arrivals but for the killed |
| BarrierModel.OpenUntilReset | uvm-core/src/base/uvm_barrier.svh:145-148 | with automatic reset off the barrier, once reached, lets everyone pass at once until it is reset |
| BarrierModel.OpenIffReached | uvm-core/src/base/uvm_barrier.svh:77-172 | after any run the barrier is open if and only if some arrival made up the threshold with automatic reset off and no reset, switch or threshold of at most zero came since |
| BarrierComponents.UvmEvent.WaitTrigger | uvm-core/src/base/uvm_event.svh:135-138 | the caller is counted and suspended on the current event object |
| BarrierComponents.UvmEvent.Trigger | uvm-core/src/base/uvm_event.svh:366-392 | everyone suspended is woken and the count is zero |
| BarrierComponents.UvmEvent.Reset | uvm-core/src/base/uvm_event.svh:206-219 | the event object is replaced; those on the old one stay there unless woken first |
| BarrierComponents.UvmEvent.Cancel | uvm-core/src/base/uvm_event.svh:233-239 | the count goes down, not below zero |
| BarrierComponents.UvmBarrier.WaitFor | uvm-core/src/base/uvm_barrier.svh:77-100 | the caller passes at once or triggers the others before itself or is suspended, as in the model |
| BarrierComponents.UvmBarrier.Reset | uvm-core/src/base/uvm_barrier.svh:114-130 | waiters are woken, and only then counted as freed, or left on the old event object, if there are any counted |
| BarrierComponents.UvmBarrier.SetThreshold | uvm-core/src/base/uvm_barrier.svh:165-172 | a threshold not above the count sets the waiters free |
| BarrierComponents.UvmBarrier.SetAutoReset | uvm-core/src/base/uvm_barrier.svh:145-148 | switching closes an open barrier |
| BarrierComponents.UvmBarrier.Cancel | uvm-core/src/base/uvm_barrier.svh:201-204 | both counts go down together |
| BarrierComponents.Play | uvm-core/src/base/uvm_barrier.svh:60-210 | the objects, driven through any sequence of calls, end in the state of the model, with agreeing counts |
| CallbackModel.AddReachesExactly | uvm-core/src/base/uvm_callback.svh:275-325 | a callback new to a type is put behind, or in front of, the queue of every type below it and of every pooled instance of it that does not hold it, and no other queue changes |
| CallbackModel.AddTypewideReaches | uvm-core/src/base/uvm_callback.svh:275-325 | the same for any registrations, whether or not they follow inheritance |
| CallbackModel.DeleteTypewideTakes | uvm-core/src/base/uvm_callback.svh:328-362 | a deletion takes a callback that stands once out of the queue of every type it visits and of every object, and leaves the others in order |
| CallbackModel.DeleteRestoresIffUnknown | uvm-core/src/base/uvm_callback.svh:328-362 | deleting after adding restores every queue if and only if the callback was in none of the visited types and in no object queue at all |
| CallbackForest.VisitsAreTheTypesBelow | uvm-core/src/base/uvm_callback.svh:316-323 | the recursion reaches exactly the types from which the registered super types lead up to the starting type |
| CallbackForest.VisitedInstances | uvm-core/src/base/uvm_callback.svh:290-314 | where registrations follow inheritance, an object is an instance of some visited type exactly when it is one of the starting type |
| CallbackModel.AddAllReaches | uvm-core/src/base/uvm_callback.svh:275-325 | however often a queue is come to, it gets at most one copy, behind what is there or in front of it |
| CallbackModel.DeleteAllRemovesPool | uvm-core/src/base/uvm_callback.svh:340-353 | a deletion takes one copy from every object queue for every visited type, whatever the object is |
| CallbackModel.DeleteAllRemovesTw | uvm-core/src/base/uvm_callback.svh:333-338 | a deletion takes one copy from the queue of a type for every visit to it |
| CallbackModel.FoundIffHeld | uvm-core/src/base/uvm_callback.svh:328-362 | something is reported as deleted exactly when a queue the deletion reaches held the callback |
| CallbackForest.RegisteringBelowABase | uvm-core/src/base/uvm_callback.svh:1201-1233 | registering types below classes they derive from never closes a circle and keeps the forest true to inheritance |
| CallbackForest.RegisteringLinks | uvm-core/src/base/uvm_callback.svh:1226-1232 | registering a super type, whatever it is, keeps both directions of the forest in step |
| CallbackForest.Forest.ReturnsIffNotOnCircle | uvm-core/src/base/uvm_callback.svh:316-323 | the recursion over the derived types comes back if and only if the type is not on a circle of registrations, and then its calls are nested no deeper than there are super types |
| CallbackForest.Forest.CircleNeverReturns | uvm-core/src/base/uvm_callback.svh:316-323 | from a type on a circle no depth of nesting is enough |
| CallbackForest.CircleFreeIff | uvm-core/src/base/uvm_callback.svh:1201-1233 | a registration closes a circle if and only if the super type is registered, directly or not, below the type |
| CallbackForest.MutualSuperTypesNeverReturn | uvm-core/src/base/uvm_callback.svh:316-323 | two types registered below each other make the recursion from either endless |
| CallbackRegistry.MakeCircle | uvm-core/src/base/uvm_callback.svh:1201-1233 | nothing keeps two types from being registered below each other |
| CallbackRegistry.CbFind | uvm-core/src/base/uvm_callback.svh:261-272 | the position of the first copy, or -1 exactly when there is none |
| CallbackRegistry.Registry.RegisterSuperType | uvm-core/src/base/uvm_callback.svh:1201-1233 | only the first registration of a type counts |
| CallbackRegistry.Registry.AddTwCbs | uvm-core/src/base/uvm_callback.svh:275-325 | for every type that is not on a circle the recursive insertion into all queues, in place, ends and is the one of the model |
| CallbackRegistry.Registry.DeleteTwCbs | uvm-core/src/base/uvm_callback.svh:328-362 | for every type that is not on a circle the recursive removal from all queues, in place, ends and is the one of the model |
| CallbackRegistry.Registry.Add | uvm-core/src/base/uvm_callback.svh:752-774 | a typewide registration does nothing but warn when the type has the callback already, and else adds it at the chosen end of every queue it reaches |
| CallbackRegistry.Registry.AddToObject | uvm-core/src/base/uvm_callback.svh:776-828 | the first registration with an object fills its empty queue with the typewide callbacks of report objects and of the type before adding its own |
| CallbackRegistry.Registry.Delete | uvm-core/src/base/uvm_callback.svh:886-918 | a typewide deletion warns exactly when no queue it reaches held the callback |
| ComponentTree.FullNameFinds | uvm-core/src/base/uvm_component.svh:1972-2014 | from anywhere, looking up a dot and the full name returns the component if and only if no name on its path has a dot or a wildcard |
| ComponentTree.OnlyFullNameFinds | uvm-core/src/base/uvm_component.svh:1972-2014 | and no other absolute string does, but for one more dot at the end |
| ComponentTree.LookupFindsIff | uvm-core/src/base/uvm_component.svh:1972-2014 | a lookup returns a component exactly when the string is well formed and spells the rest of its path from where it starts |
| ComponentTree.RelativeNameFinds | uvm-core/src/base/uvm_component.svh:1972-2014 | from an ancestor the rest of the path finds the component |
| ComponentTree.FullNamesAgreeIff | uvm-core/src/base/uvm_component.svh:1947-1966 | two components have the same full name if and only if their paths, with every name cut at all its dots, are the same |
| ComponentTree.FullNamesAreUnique | uvm-core/src/base/uvm_component.svh:1947-1966 | so components without dots in the names on their paths have different full names |
| ComponentTree.FullNameGrows | uvm-core/src/base/uvm_component.svh:1947-1966 | a full name is the one of the parent, a dot and the name, or below the root the name alone |
| ComponentTree.DottedNameClashes | uvm-core/src/base/uvm_component.svh:1947-1966 | a component named a.b at the top has the full name of b below a, and a lookup takes it for that |
| ComponentTree.MakeDotted | uvm-core/src/base/uvm_component.svh:1689-1763 | nothing keeps two components with one full name from being made |
| ComponentTree.DepthCountsAncestors | uvm-core/src/base/uvm_component.svh:2021-2035 | the depth read off the full name is the number of ancestors if and only if no name on the path has a dot |
| ComponentTree.TreeGrows | uvm-core/src/base/uvm_component.svh:1811-1833 | adding a child under a free name keeps the hierarchy a tree with full names spelling the paths |
| ComponentTree.CheckName | uvm-core/src/base/uvm_component.svh:1986-1992 | the loop finds a star, a question mark or two dots in a row if there are any |
| ComponentTree.ExtractName | uvm-core/src/base/uvm_component.svh:2041-2064 | the string is split at its first dot |
| ComponentTree.GetDepth | uvm-core/src/base/uvm_component.svh:2021-2035 | the depth is one more than the number of dots, or zero for the empty name |
| ComponentTree.Hierarchy.New | uvm-core/src/base/uvm_component.svh:1689-1763 | a new component gets a name generated from the running number of objects if it has none and joins the tree under its parent, or the root, unless the name is taken |
| ComponentTree.Hierarchy.AddChild | uvm-core/src/base/uvm_component.svh:1811-1833 | the child is filed under its name |
| ComponentTree.Hierarchy.Lookup | uvm-core/src/base/uvm_component.svh:1972-2014 | the recursive lookup ends and returns what the path says |
| ComponentNames.FullNameReadsBack | uvm-core/src/base/uvm_component.svh:1972-2064 | a full name is split back into its path by the lookup exactly when all names on it are legal |
| ComponentNames.JoinOfSegments | uvm-core/src/base/uvm_component.svh:2041-2064 | what a lookup splits, joined again, is the string but for one dot at the end |
| ComponentNames.DepthIsPathLength | uvm-core/src/base/uvm_component.svh:2021-2035 | counting dots gives the length of the path exactly when the names have none |
| ComponentNames.JoinsAlikeIff | uvm-core/src/base/uvm_component.svh:1947-1966 | two paths are written alike exactly when, cut at all their dots, they come to the same pieces |
| ComponentNames.DecimalIsLegal | uvm-core/src/base/uvm_component.svh:1729-1732 | generated names are legal |
| ComponentNames.GeneratedNamesDiffer | uvm-core/src/base/uvm_component.svh:1729-1732 | generated names differ exactly if the numbers in them do |
| ComponentNames.DecimalReadsBack | uvm-core/src/base/uvm_component.svh:1729-1732 | the number in a generated name is written in decimal, without zeros in front |
| HdlWords.SetString | uvm-core/src/dpi/uvm_hdl_vcs.c:1149-1159 | the string built from the words writes the number they make up if and only if the last word has no more bits than the signal leaves for it, and then every bit of the signal stands in its place |
| HdlWords.GetString | uvm-core/src/dpi/uvm_hdl_vcs.c:871-910 | the words read from a string make up, in each of the two planes, the number it writes if and only if what the last word held before moves out of it; whatever it held, every bit of the signal is read right: the second plane is set for what is neither 0 nor 1, the first for what is neither 0 nor Z |
| HdlWords.ZeroedIsRight | uvm-core/src/dpi/uvm_hdl_vcs.c:871-910 | a zeroed buffer is always read into right |
| HdlWords.TwoStatePlanes | uvm-core/src/dpi/uvm_hdl_vcs.c:885-907 | for strings of zeros and ones the first plane is the string and the second is zero |
| HdlWords.ShiftInto | uvm-core/src/dpi/uvm_hdl_vcs.c:884-908 | the inner loop shifts the bits of the characters into a word, modulo its width |
| HdlWords.CodeIs | uvm-core/src/dpi/uvm_hdl_vcs.c:885-907 | 0 is 0 in both planes, 1 is set in the first, Z in the second, and anything else in both |
| HdlWords.ShiftedBit | uvm-core/src/dpi/uvm_hdl_vcs.c:884-908 | after that each low bit of the word is the one of its character, whatever the word held |
| HdlWords.Btoi | uvm-core/src/dpi/uvm_hdl_vcs.c:669-683 | the digits are added up to the number they write: bit k is the k-th digit from the end, and what is no digit counts as zero |
| HdlWords.Dtob | uvm-core/src/dpi/uvm_hdl_vcs.c:689-713 | the low 32 bits are written with 32 digits, or with as few as it takes, bit k as the k-th digit from the end |
| HdlWords.ReadBack | uvm-core/src/dpi/uvm_hdl_vcs.c:669-713 | whatever form a number of 32 bits is printed in, it is read back |
| SignalWords.ReadSignal | uvm-core/src/dpi/uvm_hdl_polling.c:576-618 | the in-range chunks put together are the value, zero- or sign-extended plane by plane to whole words |
| SignalWords.GetValue32 | uvm-core/src/dpi/uvm_hdl_polling.c:576-618 | a chunk is its word of the extended value; a negative one is refused and one beyond the end reads as the last |
| SignalWords.CreateHook | uvm-core/src/dpi/uvm_hdl_polling.c:541-549 | the mask has exactly the bits up to the top one, also where doubling wraps round to zero |
| SignalWords.MaskedBits | uvm-core/src/dpi/uvm_hdl_polling.c:603-615 | masking and extending the last word leaves the signal bits and fills up with the top bit if signed |

## Left out

- Printing, reports, randomisation, coverage, sequences, VPI and VHPI handles: foreign code or output. What the
  simulator answers (whether a signal is found, whether the sequencer has an item) is a parameter.
- Factory aliases and the debug pass: the debug pass is a different search, in which a type override can displace an
  instance override. The counters of used overrides and the table of looked-up names have no effect on the choice.
- `uvm_is_match`, which compares instance paths with wildcards, is a parameter of the factory.
- FactoryEngine.DefaultFactory.FindOverrideByType: takes a bound on its steps that only the proof uses; the model
  has no execution for a cyclic chain, on which the code does not return.
- GlobTranslator.Deglob: is not defined on globs for which the code writes behind its buffer; `InBoundsIffFits` says
  exactly which these are.
- GlobSyntax.MeaningKeptIffClean: says nothing about globs with a backslash. It quotes whatever the translation puts
  behind it: an ordinary character, which the standard leaves undefined, a dot of the translation, or its backslash,
  which leaves a bracket or parenthesis unquoted. Bracket expressions are not modelled; they come about in no other way.
- Packing and unpacking objects, and sized strings without metadata; error reports and the warnings about mixing
  exports.
- Simulator reset in the polling code, which frees the records but keeps the list; the backdoor; several waking
  processes after a failed set-up.
- Event callbacks that veto a trigger, trigger data and times, and the other waits of the event.
- The pool of callback queues keeps a missing queue and an empty one apart; the model does not. Registration by name,
  iterators and the legality of type pairs are left out.
- CallbackRegistry.Registry.AddTwCbs: is not defined for a type on a circle of registrations, on which the recursion
  of the code does not return; `ReturnsIffNotOnCircle` says exactly which types these are.
- Renaming a component below which there are children does not occur: the code sets a name once, in the constructor.
- HdlWords.Btoi: covers sums up to 2 to the 53 and strings up to 1024 digits, because the code computes powers in
  double precision, which is exact there.
- Phases, resources, configuration, sequencer arbitration, comparer, copier, and the other VHDL back ends.
