# VirtualMac: verified models of the relocator, the vCPU transaction and their neighbours

Dafny models of the parts of this repository whose correctness is hardest to see from one function at a time, and
proofs about them. `dafny verify dfyconfig.toml` checks everything.

**The Mach-O relocator** (`VirtualMac/vz/uncache.py`) turns one image of a dyld shared cache into a stand-alone
library. `Relayout` packs the segments into 16 KB slots, with an optional gap, and gives the piecewise address map.
`A64Words` holds the instruction arithmetic and `Dataflow` the register dataflow over the control-flow graph with its
soundness and termination. `Worklist` is the run of the worklist as a function of the section alone: its visits, and
facts that are the greatest fixpoint. `AdrpText` says what these visits ask of the text and when they can be granted,
`AdrpRewrite` is the in-place pass that does it, `AdrpRuns` is about what the rewritten text computes along every
path, and `AdrpWitnesses` holds short sections: four whose rewritten text goes wrong, and one kept right across a
call. `AuthStubs` assigns `__auth_got` slots, `ExportTrie` remaps the export trie in place, symbol by symbol as the
loader finds them. `Entries` classifies the fixups and lists the imports, `ChainWords` packs the fixups, `Chains`
groups them by output segment and weaves them into per-page chains, `FixupBlob` emits the payload (header, chain
starts, imports, symbol pool) as bytes, and `Loader` reads payload and image back. `Pipeline` composes these from the fixups to the bytes and back: a pointer at `a` to `t` is loaded at the
new place of `a` and points to the new place of `t`, or imports the symbol that `t` has. `ClassData` is the later
rewrite of class-data fixups inside the same chains.

**The vCPU register transaction** (`VirtualMac/vz/host`, three C files). `Transaction` is one class, parametric in
the field table and the value policy; `TransactionProfiles` gives the 69-, 70- and 4-field instances. The native CPU
is an object whose setters may fail, write other registers, or nothing, and whose callbacks may tamper with the owner
record. `TransactionRuns` is about any interleaving of calls on any number of transactions with one owner;
`RoundTrip` is about snapshot, stage, commit and restore on a CPU that does what it is told.

**The atomic wait table** (`WaitTable`) is a state machine over any number of threads and addresses and any hash,
one step per statement under the bucket's mutex.

**Smaller pieces**: the 14-word PCI slot allocator run on a step machine (`PciHelper`), the in-place device-info reply
(`DeviceInfoReply`, `DeviceInfoNarrow`), symbol lookup through re-exports (`Reexports`), the chunked pattern scan
(`ScanText`) and the acceptance of embedded code signatures (`CodeDirectory`).

## Where the code does less than it seems to

Each of these is proved with its exact condition; most have a witness at a concrete input.

- `_set_adrp` does not check its range: the pair computes the intended page if and only if that page is within the
  signed 21-bit page range of the instruction (`A64Words.SetAdrpDecodes`, `A64Words.FarPageIsMissed`).
- A consumer whose target moves with the text is left as it was, and forms that target if and only if the ADRP that
  set its base keeps its page: its page is not eagerly moved elsewhere, and no visit records it for a consumer that
  needs another page (`AdrpRuns.RunsKeepStayingTargets`; both conditions are about the section before the pass). Both
  causes occur, and nothing raises (`AdrpWitnesses.EagerRepairMisdirects`, `AdrpWitnesses.SharedAdrpMisdirects`). On 4
  KB segments without a gap and for displacements below 4 KB there is no eager repair
  (`AdrpRuns.EagerRepairPassesOver`) and only a rebuilt slot can take the page (`AdrpRuns.OnlySlotsTakeThePage`).
- A consumer is rewritten when a visit knows its base, even if a later merge forgets it: its displacement survives if
  and only if no visit asked for another one (`AdrpRuns.DispKeptIff`). Along a path round the ADRP it is then wrong
  (`AdrpWitnesses.MergedLoadIsMisplaced`).
- The pass forgets x0 to x18 at a call, but not the link register x30, which the call itself writes
  (`Dataflow.LinkClaimsAreWrong`). What is said of runs holds of sections in which nothing is known of x30 at any call
  (`AdrpRewrite.LinkClear`, a condition on the section); a load through x30 behind a call goes wrong, and one through
  any other of x19 and up does not (`AdrpWitnesses.LoadBehindCall`).
- An entry outside every output segment's memory is dropped in the grouping: a location survives if and only if its new
  place is below the end of its own slot's memory (`Pipeline.KeptIff`). None is lost from a segment whose file size is
  at most its memory size (`Pipeline.NothingIsLost`); from others some can be (`Pipeline.LocationIsLost`).
- `set_consumer_disp` takes the scale from bits 31:30 and so misses the 128-bit SIMD forms; the displacement survives
  exactly for the other forms or for zero (`A64Words.SetConsumerDispDecodes`, `A64Words.SimdScaleIsMissed`).
- A plain bind has no top-byte field: a tagged pointer to another image loses its top byte (`ChainWords.ReadPack`,
  `Pipeline.CarriedFits`, `ChainWords.TopByteIsLost`).
- A padded ULEB128 of `n` bytes keeps its value exactly below `2^(7n)`; a larger new offset is cut silently
  (`ExportTrie.PaddedKeepsValue`, `ExportTrie.DoneFieldReads`, `ExportTrie.PaddedIsCut`).
- A name offset in the import table keeps its value exactly below `2^23` (`FixupBlob.OrdinalNamesSymbol`,
  `FixupBlob.FarNameIsMissed`).
- `wait` sleeps on an old ticket if and only if the number of notifications since is a multiple of `2^64`
  (`WaitTable.CheckSleepsIff`); `waiters` is exact if and only if fewer than `2^32` threads wait.
- A commit at epoch `2^64 - 2` succeeds, but its restore is refused as exhausted (`Transaction.Txn.Restore`,
  `RoundTrip.CommitAtTheLastEpoch`).
- The PCI helper reads outside the table for a request that is neither automatic nor a slot number
  (`PciHelper.ReadsStayInsideIff`, `PciHelper.RequestReadsPastTheTable`).
- The chunked `scan_text` agrees with one pass for every callback of a width if and only if no position that one pass
  tests is out of every chunk's sight (`ScanText.WideScanIsOnePassIff`). The 32-byte overlap is too small for the
  40-byte callback: from an aligned start it never sees the position 36 bytes before an inner chunk boundary, and from
  any other start two positions before each (`ScanText.FortyByteBlindSpots`). There is a text whose only match is lost
  (`ScanText.CsrPatternIsMissed`).

## Model

| member | source | states |
|---|---|---|
| Relayout.Place | VirtualMac/vz/uncache.py:391-406 | the packing loop yields every slot start, the delta table, the gap address and the end that the layout prescribes |
| Relayout.Compact | VirtualMac/vz/uncache.py:407-415 | every output slot holds its segment's content, split around the gap, and zeros elsewhere |
| Relayout.AmapIsSegmentwise | VirtualMac/vz/uncache.py:1381-1386 | `amap` is defined exactly on the old segments and moves each address as its segment moves |
| Relayout.AmapIsInjective | VirtualMac/vz/uncache.py:1381-1386 | `amap` never sends two addresses to one |
| Relayout.AmapKeepsOrder | VirtualMac/vz/uncache.py:391-406 | inside a segment order is kept, and so is every distance that does not cross the gap |
| Relayout.AmapKeepsPageOffset | VirtualMac/vz/uncache.py:391-406 | every move is a multiple of 4 KB |
| Relayout.GapIsUnmapped | VirtualMac/vz/uncache.py:397-403 | no address is moved into the gap |
| Relayout.PoolIsTheGap | VirtualMac/vz/uncache.py:397-403 | the pool address is where the gap begins: the last byte before the split lands right before it, the first one behind right after the gap, nothing inside |
| Relayout.TailIsUnmapped | VirtualMac/vz/uncache.py:394-406 | nor into the bytes reserved behind the text |
| Relayout.SlotsArePacked | VirtualMac/vz/uncache.py:391-406 | every slot begins at the first 16 KB boundary behind content or memory, gap and tail of the one before |
| Relayout.SlotsMirrorTheFile | VirtualMac/vz/uncache.py:417-428 | slots are disjoint in memory and in the file, aligned, and file offset is address minus base |
| Relayout.SlotCoversItsSegment | VirtualMac/vz/uncache.py:417-424 | the load command of a slot covers the memory and the content of its segment |
| Relayout.ContentMovesWithAmap | VirtualMac/vz/uncache.py:408-415 | the byte that was at an address is the byte at the address it moves to |
| A64Words.SetAdrpDecodes | VirtualMac/vz/uncache.py:1195-1205 | a rewritten ADRP decodes to the target's page if and only if that page is in reach |
| A64Words.SetAdrpCongruent | VirtualMac/vz/uncache.py:1195-1205 | it computes a page in its reach exactly when given that page modulo the 8 GB its bits span |
| A64Words.SetAdrpPage | VirtualMac/vz/uncache.py:1202-1205 | out of reach it decodes to the page delta modulo 2^21 |
| A64Words.AssembledAdrp | VirtualMac/vz/uncache.py:1195-1200 | the word an assembler writes for an ADRP of so many pages decodes to that page |
| A64Words.SetAdrpKeepsOpcode | VirtualMac/vz/uncache.py:1202-1205 | register and opcode survive, and a second rewrite forgets the first |
| A64Words.UntouchedAdrpMovesWithText | VirtualMac/vz/uncache.py:1195-1200 | an ADRP left alone moves with its text |
| A64Words.SetConsumerDispDecodes | VirtualMac/vz/uncache.py:915-925 | a rewritten consumer adds the new displacement, except exactly at 128-bit accesses with a nonzero one |
| A64Words.SetConsumerDispTwice | VirtualMac/vz/uncache.py:915-925 | rewriting the same displacement again changes nothing |
| A64Words.SimdScaleIsMissed | VirtualMac/vz/uncache.py:919-922 | LDR q0 rewritten to 16 reads 256 bytes away |
| A64Words.SetAddImmFields | VirtualMac/vz/uncache.py:1207-1212 | `_set_add_imm` writes the low 12 bits, clears the shift and keeps the rest |
| A64Words.AssembledAdd | VirtualMac/vz/uncache.py:1207-1208 | the word an assembler writes for ADD (immediate) reads as its immediate, shifted or not |
| A64Words.AssembledLoad | VirtualMac/vz/uncache.py:915-925 | the word an assembler writes for a load or store reads as its offset in units of its scale, 16 for a 128-bit register |
| Dataflow.FactsAreSound | VirtualMac/vz/uncache.py:994-1041 | at a fixpoint that knows nothing of the link register at a call, on every machine and along every path from a seed each register holds the recorded page, put there by a recorded ADRP |
| Dataflow.SuccessorsAre | VirtualMac/vz/uncache.py:1052-1055 | the pass goes exactly where the machine goes |
| Dataflow.CallsKeep | VirtualMac/vz/uncache.py:1153-1156 | a call keeps what is known of x19 and up, and nothing else |
| Dataflow.ClaimsAreKeptIff | VirtualMac/vz/uncache.py:1053-1166 | an instruction keeps a claim if and only if every machine keeps the register; the link register at a call is the exception |
| Dataflow.LinkClaimsAreWrong | VirtualMac/vz/uncache.py:941-943 | what is known of the link register at a call is kept and is then wrong on some machine |
| Dataflow.MergeAllEvolves | VirtualMac/vz/uncache.py:994-1014 | merging only weakens facts, keeps the page recorded for a register, and queues whatever changed |
| Dataflow.StepSettles | VirtualMac/vz/uncache.py:1046-1189 | processing a position settles it and keeps all others settled |
| Dataflow.MergeLowers | VirtualMac/vz/uncache.py:994-1014 | a merge that changes anything lowers (unvisited positions, registers held, missing definitions) |
| Worklist.FactsAreGreatest | VirtualMac/vz/uncache.py:1016-1046 | the facts at the end are the greatest fixpoint from the seeds; every ADRP is reached, and every seed is a function start or an ADRP |
| Worklist.VisitsAreSound | VirtualMac/vz/uncache.py:1046-1189 | every visit claims at least what the facts say at the end, later visits of a position claim no more, the facts at the end were seen, and definitions are visited before their uses |
| AdrpText.RewriteAllIs | VirtualMac/vz/uncache.py:1066-1152 | visits, one after the other, succeed exactly if no two give an ADRP different pages and every consumer fits; the text is then what they ask for |
| AdrpText.ResultIff | VirtualMac/vz/uncache.py:1016-1189 | the result of the pass as a function of its input: exactly when there is one, every ADRP's page and every consumer's word |
| AdrpRewrite.Pass.Merge | VirtualMac/vz/uncache.py:994-1014 | `merge_state` is the merge of the dataflow |
| AdrpRewrite.Pass.RepairDefinitions | VirtualMac/vz/uncache.py:1122-1140 | every definition without a page gets the page, and it raises exactly if one has another |
| AdrpRewrite.Pass.RewriteConsumer | VirtualMac/vz/uncache.py:1107-1152 | a consumer whose target moves is repointed with all its ADRPs, or raises, exactly as specified |
| AdrpRewrite.Pass.Step | VirtualMac/vz/uncache.py:1046-1189 | one round is the next visit of the worklist and what it does to the text; a raise means that the pass has no result |
| AdrpRewrite.Pass.Run | VirtualMac/vz/uncache.py:1016-1189 | the pass terminates with the specified text, or raises, exactly if its visits cannot all be granted; the function starts are seeds, the facts are the greatest fixpoint from the seeds, and every position with facts, every ADRP among them, was visited |
| AdrpRewrite.EntriesAreSeeds | VirtualMac/vz/uncache.py:1016-1019 | every function start is entered with nothing known, and the first instruction of a section without any |
| AdrpRewrite.RelocatesIff | VirtualMac/vz/uncache.py:1107-1117 | a consumer is relocated exactly if the map sends its address elsewhere than the text moves, or it lies outside the image and has a slot; and then to that place |
| AdrpRewrite.ConsumersReachTheirTargets | VirtualMac/vz/uncache.py:1107-1152 | after the pass, for every visit of a consumer that moves, the common page of its ADRPs plus its encoded displacement is its relocated target |
| AdrpRewrite.TargetIsTheAmapOfTheOldOne | VirtualMac/vz/uncache.py:1107-1116 | over every run of the old code with the link register clear at calls, that target is the address map's image of the address formed, or its slot |
| AdrpRewrite.AdrpCarriesItsPage | VirtualMac/vz/uncache.py:1122-1136 | an ADRP given a page computes it at its new address exactly when it is in reach |
| AdrpRewrite.ConsumerAddsNewDisp | VirtualMac/vz/uncache.py:1141-1152 | when a rewritten consumer adds the new displacement |
| AdrpRuns.NewRunsAreSourced | VirtualMac/vz/uncache.py:994-1189 | along every path of the rewritten text each register the facts speak of holds what one of its recorded ADRPs now computes |
| AdrpRuns.RunsFormNewAddresses | VirtualMac/vz/uncache.py:1066-1152 | along every run of the rewritten text with the link register clear at calls, a consumer forms the new address of the one it formed, if it moves with the text exactly if its ADRP keeps its page, else exactly if that address is in reach |
| AdrpRuns.EagerAdrpsFollowTheMap | VirtualMac/vz/uncache.py:1066-1096 | an ADRP whose page is mapped by whole pages otherwise than the text moves computes the image of its page, exactly if that is in reach |
| AdrpRuns.RunsReachTheirTargets | VirtualMac/vz/uncache.py:1107-1152 | along every run of the rewritten text from a function start or seed, with the link register clear at calls, a consumer whose target moves forms the relocated target if and only if its page is in reach of the ADRP that set its base |
| AdrpRuns.RunsKeepStayingTargets | VirtualMac/vz/uncache.py:1107-1116 | along every such run, a consumer whose target moves with the text is untouched and forms the moved target if and only if the page of that ADRP is neither eagerly moved nor asked for by another consumer, modulo 8 GB |
| AdrpRuns.EagerPageKeepsIff | VirtualMac/vz/uncache.py:1066-1096 | an eager page is the old one moved with the text if and only if both moves agree modulo 8 GB |
| AdrpRuns.EagerRepairPassesOver | VirtualMac/vz/uncache.py:1066-1096 | below 4 KB of displacement and without a gap the eager repair never takes the page of a consumer that moves with the text |
| AdrpRuns.OnlySlotsTakeThePage | VirtualMac/vz/uncache.py:1107-1140 | and a consumer that takes it is one of a rebuilt slot |
| AdrpRuns.DispKeptIff | VirtualMac/vz/uncache.py:1107-1152 | a consumer keeps its displacement if and only if no visit asked for another one |
| AdrpRuns.ForgottenConsumer | VirtualMac/vz/uncache.py:994-1152 | a consumer whose base is forgotten in the end has its old word or the one its visits agreed on |
| AdrpWitnesses.EagerRepairMisdirects | VirtualMac/vz/uncache.py:1066-1096 | an accepted section on 4 KB segments in which the eager repair misdirects a load from the text |
| AdrpWitnesses.SharedAdrpMisdirects | VirtualMac/vz/uncache.py:1107-1140 | an accepted section in which one consumer takes the page of another's ADRP |
| AdrpWitnesses.MergedLoadIsMisplaced | VirtualMac/vz/uncache.py:994-1152 | an accepted section in which a load is rewritten for one of its two paths only |
| AdrpWitnesses.KnownBehindCallIff | VirtualMac/vz/uncache.py:1153-1156 | in a section ADRP, BL, LDR the register is known behind the call exactly if it is one of x19 and up |
| AdrpWitnesses.LoadBehindCall | VirtualMac/vz/uncache.py:1107-1156 | and the load then gets its slot's displacement, which is right for all of them but the link register |
| AuthStubs.SlotsAreAFunction | VirtualMac/vz/uncache.py:1250-1265 | a slot carries one symbol; fresh slots differ from each other and from every claimed one |
| AuthStubs.NextFree | VirtualMac/vz/uncache.py:1251 | the generator yields the next slot no in-image stub claims |
| AuthStubs.FixAuthStubs | VirtualMac/vz/uncache.py:1238-1265 | every named stub is repointed to its slot and listed with its symbol; every other word is as it was |
| AuthStubs.WithoutSlotOnlyWhenFull | VirtualMac/vz/uncache.py:1258-1262 | a named stub goes without a slot only when every unclaimed one was handed out |
| AuthStubs.PairReachesSlot | VirtualMac/vz/uncache.py:1263-1264 | a repointed pair computes its slot exactly when the slot is in ADRP reach |
| AuthStubs.StubReadsItsSlot | VirtualMac/vz/uncache.py:1245-1246 | a stub built for a slot at its cache address is read as a stub of that slot, exactly when its ADRP reached |
| AuthStubs.StubsAreTheAdrps | VirtualMac/vz/uncache.py:1240-1246 | exactly the stubs that begin with an ADRP are treated |
| AuthStubs.FreeIff | VirtualMac/vz/uncache.py:1249-1250 | the free slots are the whole pointers of `__auth_got` that no in-image stub uses |
| AuthStubs.StubReachesItsSymbol | VirtualMac/vz/uncache.py:1252-1265 | a stub with a slot computes it when in reach, and the slot is bound to the symbol the stub had in the cache and to no other |
| ExportTrie.Ruleb | VirtualMac/vz/uncache.py:864-869 | the loop reads the ULEB128 at a position |
| ExportTrie.Wpad | VirtualMac/vz/uncache.py:874-876 | the loop writes a value in exactly the given bytes and nothing else |
| ExportTrie.PaddedKeepsValue | VirtualMac/vz/uncache.py:874-876 | a padded number reads back in the same bytes, as its value exactly below 2^(7n) |
| ExportTrie.SameNode | VirtualMac/vz/uncache.py:887-900 | rewriting offsets in their bytes leaves flags, names, children and field positions of a node alone |
| ExportTrie.DoneFieldReads | VirtualMac/vz/uncache.py:877-880 | a fixed field leads from the new base to the image of the address it led to, exactly when that offset fits; without an image it is as it was |
| ExportTrie.FixTrie | VirtualMac/vz/uncache.py:881-901 | the walk ends on every buffer; on a well-formed trie each reachable field is remapped once and no other byte changes |
| ExportTrie.SymbolsFollowTheMap | VirtualMac/vz/uncache.py:849-901 | every symbol the loader found it finds after, at the same terminal; an address (and a resolver) has become its image under `amap`, exactly when its offset fits |
| ExportTrie.ReBaseIsTheFirstSegment | VirtualMac/vz/uncache.py:856 | offsets are counted from the old address of the first segment |
| ChainWords.ReadPack | VirtualMac/vz/uncache.py:161-171 | packing and reading are inverse exactly on the fixups that fit; the link always survives |
| ChainWords.PackedBits | VirtualMac/vz/uncache.py:161-171 | where each field of each form is: the sum of the fields at bits 0, 32, 43, 48, 49, 51, 62 and 63 |
| Entries.Emitter.AddFix | VirtualMac/vz/uncache.py:1775-1813 | a fixup becomes an entry at the new location with the intended meaning and its authentication fields |
| Entries.Emitter.AddAll | VirtualMac/vz/uncache.py:1775-1813 | the loop does so for all fixups, whatever is interned later, and stops exactly at an unnamed target |
| Entries.Emitter.Intern | VirtualMac/vz/uncache.py:1809-1813 | a name gets one index and indices never move |
| Entries.ImportsAreTheWanted | VirtualMac/vz/uncache.py:1806-1829 | the import list holds exactly the symbols that fixups and slots are to mean, each once |
| Entries.Emitter.AddSlot | VirtualMac/vz/uncache.py:1814-1829 | a rebuilt slot is bound or rebased and replaces what was there |
| Entries.Emitter.AddSlots | VirtualMac/vz/uncache.py:1814-1829 | of all rebuilt slots the last one at a location wins, and every other location keeps its entry |
| Chains.SortedIs | VirtualMac/vz/uncache.py:1865 | sorting distinct addresses gives the ascending list of the same addresses |
| Chains.GroupEntries | VirtualMac/vz/uncache.py:1855-1865 | per output segment exactly the entries inside it, sorted; entries outside every segment are dropped |
| Chains.DeltaFits | VirtualMac/vz/uncache.py:1876-1877 | a link within a page is positive and always fits 11 bits |
| Chains.PagesPartition | VirtualMac/vz/uncache.py:1871-1872 | the pages of a sorted list, put together, are the list |
| Chains.WeavePage | VirtualMac/vz/uncache.py:1873-1883 | the chain of one page is in place and no other word changed |
| Chains.WeaveSegment | VirtualMac/vz/uncache.py:1864-1884 | all page chains and page starts of a segment are in place |
| Chains.WeaveImage | VirtualMac/vz/uncache.py:1862-1884 | the same for all segments, each keeping the others' chains |
| Chains.PageStartIs | VirtualMac/vz/uncache.py:1867-1873 | a page without an entry is marked 0xFFFF, any other begins at its lowest |
| Chains.WalkVisitsSegment | VirtualMac/vz/uncache.py:1862-1884 | the loader's walk visits exactly the entries of the segment, in order |
| Chains.LoaderRecoversEntries | VirtualMac/vz/uncache.py:1864-1884 | from a woven segment the loader recovers exactly the locations of its entries, each entry if and only if it fits its form |
| FixupBlob.EmitImports | VirtualMac/vz/uncache.py:1890-1901 | every name is in the pool where the names before it end, and its import word carries that offset |
| FixupBlob.OrdinalNamesSymbol | VirtualMac/vz/uncache.py:1894-1901 | an ordinal reads back as its symbol; its offset survives exactly below 2^23 |
| FixupBlob.EmitStarts | VirtualMac/vz/uncache.py:1902-1919 | every segment's record is in place behind the offset array; it fails only when a field does not fit |
| FixupBlob.StartsReadBack | VirtualMac/vz/uncache.py:1902-1919 | the record read back is the one written: segment offset, page size, entry form and page starts |
| FixupBlob.EmitPayload | VirtualMac/vz/uncache.py:1921-1926 | header, starts, imports and pool are where the loader looks for them |
| FixupBlob.PayloadNames | VirtualMac/vz/uncache.py:1890-1926 | from the payload's bytes an ordinal reads as its symbol, its library and its weakness |
| FixupBlob.EmitBlob | VirtualMac/vz/uncache.py:1886-1926 | the whole payload holds the starts and, for lookup in any library, every name without NUL that begins within 2^23 bytes of pool |
| FixupBlob.HeaderExample | VirtualMac/vz/uncache.py:1921-1926 | the 28 bytes of a header |
| FixupBlob.RecordExample | VirtualMac/vz/uncache.py:1906-1911 | the 24 bytes of a record: 16 KB pages, form 9 |
| Loader.LoadIsRight | VirtualMac/vz/uncache.py:1855-1926 | from the payload's bytes and the image's words the loader finds exactly the locations of the entries inside the segments, and reads an entry as it was if and only if it fits its form |
| Pipeline.KeptIff | VirtualMac/vz/uncache.py:1855-1860 | a location survives the grouping if and only if its new place is below the end of its slot's memory |
| Pipeline.NothingIsLost | VirtualMac/vz/uncache.py:417-423 | no location is lost from a segment whose file size is at most its memory size |
| Pipeline.LocationIsLost | VirtualMac/vz/uncache.py:1855-1860 | from another segment a location can be lost |
| Pipeline.EmitImage | VirtualMac/vz/uncache.py:1855-1926 | grouping, weave and payload together: what is loaded is what was emitted, no other word changes, and it fails only when a field is too small |
| Pipeline.CarriedFits | VirtualMac/vz/uncache.py:1876-1883 | which emitted entries fit their packed form, as a condition on the fixup |
| Pipeline.Classify | VirtualMac/vz/uncache.py:1775-1829 | entries are exactly at the fixed locations and the slots; a slot's entry replaces a fixup's; an unnamed target stops it |
| Pipeline.Relocate | VirtualMac/vz/uncache.py:1775-1926 | the imports are the symbols asked for in the order of first use; the loader finds exactly the locations of fixups and slots that are in output memory, and at each what its slot or fixup was to mean, signed as it was; other words are untouched; it stops exactly at an unnamed target or a field too small |
| Pipeline.PointerMovesWithBothEnds | VirtualMac/vz/uncache.py:1775-1782 | an in-image pointer is loaded where its location moved, points where its target moved, and keeps its signature and top byte |
| Pipeline.StringIsLocal | VirtualMac/vz/uncache.py:1783-1784 | a pointer to a localized string is loaded as a pointer to the local copy |
| Pipeline.ProtocolIsLocal | VirtualMac/vz/uncache.py:1785-1802 | a reference to a foreign protocol at which a local one is stored is loaded as a pointer to where that moved, not as the class of protocols |
| Pipeline.UnnamedStops | VirtualMac/vz/uncache.py:1803 | a foreign target without a local copy and a name stops the run |
| Pipeline.WantedIsLoadable | VirtualMac/vz/uncache.py:1806-1813 | in an import table that fits (65536 names, no NUL, 8 MB), a wanted symbol can be loaded exactly if its pointer's signature is in range and a plain pointer has no top byte |
| Pipeline.SymbolIsImported | VirtualMac/vz/uncache.py:1786-1813 | then any other foreign pointer is loaded as an import of its symbol's name, in any library, weak as asked, and signed as it was |
| Pipeline.SlotIsImported | VirtualMac/vz/uncache.py:1816-1829 | and so is a rebuilt slot bound to a symbol, signed with key 0 and the address if at all |
| Pipeline.SlotPointsInto | VirtualMac/vz/uncache.py:1814-1829 | a slot that holds an address of the image is loaded as that address, unsigned |
| ClassData.PatchSection | VirtualMac/vz/patches/patch_ipados15_objc_class_data.py:38-57 | at any file offset, succeeds exactly if the section is whole classes with the one expected fixup in each, and then converts exactly those fields |
| ClassData.PatchImage | VirtualMac/vz/patches/patch_ipados15_objc_class_data.py:37-58 | over sections that share no field, succeeds exactly if all are as expected, and converts exactly their fields |
| ClassData.ClassDataIff | VirtualMac/vz/patches/patch_ipados15_objc_class_data.py:44-52 | the expected fixup is what the loader reads as a rebase signed with key 2 and diversity 0x61F8 |
| ClassData.DataFieldsIff | VirtualMac/vz/patches/patch_ipados15_objc_class_data.py:40-43 | the fields are 32 bytes into each 40-byte class |
| ClassData.PlainReads | VirtualMac/vz/patches/patch_ipados15_objc_class_data.py:53-56 | the conversion keeps the link and the target and drops exactly the signature |
| ClassData.PatchedWords | VirtualMac/vz/patches/patch_ipados15_objc_class_data.py:43-56 | in 8-aligned sections the converted bytes are whole words of the chains |
| ClassData.PatchKeepsChains | VirtualMac/vz/patches/patch_ipados15_objc_class_data.py:37-58 | the loader visits the same addresses in the same order; only class data reads differently |
| ClassData.LoadsAlike | VirtualMac/vz/patches/patch_ipados15_objc_class_data.py:37-58 | from the same payload the loader finds the same locations and entries, but for the signatures of class data |
| Transaction.Txn.Guard | VirtualMac/vz/host/modern_cpu_context_transaction.c:64-74 | success means the lease, lifetime, epochs and callbacks held before and after the CPU was consulted, and its context and version were the bound ones |
| Transaction.ChecksIff | VirtualMac/vz/host/modern_cpu_context_transaction.c:54-74 | those conditions, one by one |
| Transaction.NamesThisLifetimeIff | VirtualMac/vz/host/modern_cpu_context_transaction.c:75-84 | and whom a failed rollback quarantines |
| Transaction.Txn.Poison | VirtualMac/vz/host/modern_cpu_context_transaction.c:75-84 | the owner is quarantined exactly if it still names this lifetime |
| Transaction.Txn.ReadNative | VirtualMac/vz/host/modern_cpu_context_transaction.c:85-100 | a value is returned only if getter and native memory agree |
| Transaction.Txn.Observe | VirtualMac/vz/host/modern_cpu_context_transaction.c:117-125 | success returns all native fields and the audited words |
| Transaction.Txn.Bind | VirtualMac/vz/host/modern_cpu_context_transaction.c:126-147 | takes a free lease for this lifetime, or leaves everything as it was |
| Transaction.Txn.Snapshot | VirtualMac/vz/host/modern_cpu_context_transaction.c:148-159 | baseline and requested values become the native ones |
| Transaction.Txn.Stage | VirtualMac/vz/host/modern_cpu_context_transaction.c:160-173 | one requested value changes, to one the policy permits; a pending bit is set exactly where requested and baseline differ |
| Transaction.Txn.CancelStaged | VirtualMac/vz/host/modern_cpu_context_transaction.c:177-183 | requested values become the baseline again |
| Transaction.Txn.AdvanceEpoch | VirtualMac/vz/host/modern_cpu_context_transaction.c:196-200 | the epoch goes up by one under a fresh guard, and never wraps |
| Transaction.Txn.RestoreFields | VirtualMac/vz/host/modern_cpu_context_transaction.c:201-214 | the rollback calls one setter per attempted field, last first, each under a fresh guard and journalled before, until it is blocked |
| Transaction.Txn.RestoreAttempted | VirtualMac/vz/host/modern_cpu_context_transaction.c:201-226 | all fields hold the baseline and the trigger is returned, or the transaction is poisoned |
| Transaction.Txn.ApplyPending | VirtualMac/vz/host/modern_cpu_context_transaction.c:240-251 | the commit loop calls one setter per pending field in order, each under a fresh guard and journalled before |
| Transaction.Txn.Commit | VirtualMac/vz/host/modern_cpu_context_transaction.c:232-258 | all requested values and epoch plus one; or nothing called; or all baseline values; or poisoned |
| Transaction.Txn.Verify | VirtualMac/vz/host/modern_cpu_context_transaction.c:259-267 | success means a committed state that the CPU still has |
| Transaction.Txn.Restore | VirtualMac/vz/host/modern_cpu_context_transaction.c:268-276 | starts only from exactly the committed state, and ends at the baseline or poisoned |
| Transaction.Txn.Release | VirtualMac/vz/host/modern_cpu_context_transaction.c:277-282 | gives the lease up only without pending or committed values |
| Transaction.Txn.Perform | VirtualMac/vz/host/modern_cpu_context_transaction.h:95-111 | every call keeps the transaction valid and is a step of the lease protocol |
| Transaction.StagedDiff | VirtualMac/vz/host/modern_cpu_context_transaction.c:170-173 | setting or clearing one bit keeps the pending mask the difference, empty exactly when nothing differs |
| TransactionProfiles.ProfilesAreSound | VirtualMac/vz/host/modern_cpu_context_transaction.c:6-22 | in all three tables registers are distinct and native bytes disjoint from each other and from the audited words |
| TransactionProfiles.TargetIff | VirtualMac/vz/host/modern_cpu_context_transaction.c:161-163 | a field is found by its register, and a 32-bit one takes no wider value |
| TransactionProfiles.Policy69 | VirtualMac/vz/host/modern_cpu_context_transaction.c:167-168 | SCTLR_EL1 may be 0x30800180, its snapshot or its bound value; every other field anything |
| TransactionProfiles.Policy70 | VirtualMac/vz/host/modern_cpu_context_transaction70.c:169-172 | so too in the 70-field table, and CPSR may be 0x3c5, its snapshot or its bound value |
| TransactionProfiles.PolicySystem4 | VirtualMac/vz/host/modern_cpu_system_state_transaction4.c:147-148 | CSSELR_EL1 at most 0xf, or one of the two |
| TransactionProfiles.RequestedIsTame | VirtualMac/vz/host/modern_cpu_context_transaction.c:160-183 | after any calls a transaction requests only such values of SCTLR, CPSR and CSSELR |
| TransactionProfiles.EveryWriteIsTame | VirtualMac/vz/host/modern_cpu_context_transaction.c:201-258 | and in any run every setter call writes only such a value |
| TransactionRuns.RunKeepsExclusion | VirtualMac/vz/host/modern_cpu_context_transaction.c:64-74 | over any interleaving exactly the lease holder is live, so at most one transaction is |
| TransactionRuns.EveryWriteIsTheHolders | VirtualMac/vz/host/modern_cpu_context_transaction.c:201-258 | every setter call of a run is the lease holder's, with matching lifetime and epoch, guarded, journalled and with a permitted value |
| TransactionRuns.PoisonIsForever | VirtualMac/vz/host/modern_cpu_context_transaction.c:75-84 | a poisoned transaction stays so, keeps the lease, and no setter is called again by anyone |
| TransactionRuns.CommitKeepsTheLease | VirtualMac/vz/host/modern_cpu_context_transaction.c:268-282 | a committed transaction can lose the lease only after a rollback |
| TransactionRuns.EpochNeverFalls | VirtualMac/vz/host/modern_cpu_context_transaction.c:196-200 | the state epoch never falls and never wraps |
| TransactionRuns.Interleave | VirtualMac/vz/host/modern_cpu_context_transaction.h:95-111 | any schedule of calls on any transactions is such a run, world after world the calls of the schedule |
| RoundTrip.LastStageWins | VirtualMac/vz/host/modern_cpu_context_transaction.c:160-173 | the last accepted stage of a field decides its value |
| RoundTrip.OneCallPerField | VirtualMac/vz/host/modern_cpu_context_transaction.c:240-243 | a commit calls exactly one setter per changed field, in ascending order |
| RoundTrip.RollbackIsReversed | VirtualMac/vz/host/modern_cpu_context_transaction.c:206-209 | a rollback calls exactly one per attempted field, in descending order |
| RoundTrip.CommitAtTheLastEpoch | VirtualMac/vz/host/modern_cpu_context_transaction.c:232-276 | at epoch 2^64 - 2 a commit succeeds and its restore is refused |
| RoundTrip.CommitAndRestore | VirtualMac/vz/host/modern_cpu_context_transaction.c:148-276 | snapshot, any stages, commit and restore end at the snapshot with the epoch up by two |
| WaitTable.StepKeeps | VirtualMac/vz/host/modern_cpu_runtime_compat.cpp:63-78 | every statement of every thread keeps the table's invariant |
| WaitTable.RunKeeps | VirtualMac/vz/host/modern_cpu_runtime_compat.cpp:41-78 | so it holds after any interleaving |
| WaitTable.OneHolder | VirtualMac/vz/host/modern_cpu_runtime_compat.cpp:63-78 | a bucket's mutex has one holder |
| WaitTable.WaitersAreCounted | VirtualMac/vz/host/modern_cpu_runtime_compat.cpp:68-73 | `waiters` is the number of threads inside `wait`, modulo 2^32 |
| WaitTable.CheckSleepsIff | VirtualMac/vz/host/modern_cpu_runtime_compat.cpp:72 | `wait` sleeps exactly if the notifications since the ticket are a multiple of 2^64 |
| WaitTable.LeavesOnlyNotified | VirtualMac/vz/host/modern_cpu_runtime_compat.cpp:72-73 | a wait returns only after a notification of its bucket |
| WaitTable.NoLostWakeup | VirtualMac/vz/host/modern_cpu_runtime_compat.cpp:66-78 | a sleeper on an old ticket sees a notifier about to wake it |
| WaitTable.DrainReleases | VirtualMac/vz/host/modern_cpu_runtime_compat.cpp:63-78 | every critical section ends by its own steps and disturbs nobody but by its broadcast |
| WaitTable.NotifiedSleeperReturns | VirtualMac/vz/host/modern_cpu_runtime_compat.cpp:66-78 | and then the sleeper runs to the end of `wait` |
| WaitTable.MonitorIssuesTheTicket | VirtualMac/vz/host/modern_cpu_runtime_compat.cpp:63-65 | a call of `monitor` returns the bucket's sequence number and changes nothing |
| WaitTable.WaitReturnsIff | VirtualMac/vz/host/modern_cpu_runtime_compat.cpp:66-74 | a call of `wait` returns and leaves no trace if the notifications since the ticket are no multiple of 2^64, else sleeps, counted once |
| WaitTable.NotifyCountsAndWakes | VirtualMac/vz/host/modern_cpu_runtime_compat.cpp:75-78 | a call of `notify` adds one to the sequence number and wakes exactly the sleepers of the bucket |
| WaitTable.ReturnedNotifyCounted | VirtualMac/vz/host/modern_cpu_runtime_compat.cpp:75-78 | over runs: a call of `notify` that has returned has counted |
| WaitTable.RunLosesNoWakeup | VirtualMac/vz/host/modern_cpu_runtime_compat.cpp:63-78 | over whole runs: a call of `notify` that began after the ticket was issued and has returned is never slept through |
| PciHelper.WordsDecode | VirtualMac/vz/patches/patch_vmm_pci_address.py:42-57 | the 14 words decode to the program in the comments |
| PciHelper.HelperChooses | VirtualMac/vz/patches/patch_vmm_pci_address.py:39-57 | on every memory the helper returns within 1289 steps with the chosen slot and three scratch registers changed |
| PciHelper.LeastFree | VirtualMac/vz/patches/patch_vmm_pci_address.py:47-54 | the least free slot: it is free and none before it is |
| PciHelper.ReadsStayInsideIff | VirtualMac/vz/patches/patch_vmm_pci_address.py:43-54 | it reads only inside the table if and only if the request is automatic or a slot number modulo 2^61 |
| PciHelper.BlReaches | VirtualMac/vz/patches/patch_vmm_pci_address.py:32-36 | `encode_bl` succeeds exactly for the targets some BL word calls |
| PciHelper.EncodedBlDecodes | VirtualMac/vz/patches/patch_vmm_pci_address.py:32-36 | and its word calls that target |
| PciHelper.CallSiteCallsHelper | VirtualMac/vz/patches/patch_vmm_pci_address.py:85-88 | the patched call site calls the helper |
| DeviceInfoReply.Augment | VirtualMac/vz/host/PVGDeviceInfoReply.h:76-119 | the visible list is the old one with extras upserted in order; the counters account for every extra; other bytes are untouched |
| DeviceInfoReply.UpsertAllKeepsKeys | VirtualMac/vz/host/PVGDeviceInfoReply.h:98-114 | unique keys stay unique and no zero key enters |
| DeviceInfoReply.LastExtraWins | VirtualMac/vz/host/PVGDeviceInfoReply.h:98-114 | the last accepted extra of a key decides its value |
| DeviceInfoReply.UpsertAllTwice | VirtualMac/vz/host/PVGDeviceInfoReply.h:98-114 | the same extras a second time change nothing |
| DeviceInfoReply.AugmentedReply | VirtualMac/vz/host/PVGDeviceInfoReply.h:83-117 | a terminator remains whenever the guest was told to read past the page, and unique keys stay unique |
| DeviceInfoReply.DroppedOnlyWhenFull | VirtualMac/vz/host/PVGDeviceInfoReply.h:84-114 | an accepted key is missing only when all `count` pairs are used, or all of the page but one for the terminator |
| DeviceInfoReply.AppliedArePresent | VirtualMac/vz/host/PVGDeviceInfoReply.h:98-114 | the applied count is the number of extras whose key is in the final list |
| DeviceInfoReply.RefusedKeysStay | VirtualMac/vz/host/PVGDeviceInfoReply.h:100-103 | keys that are zero or not below the limit are never entered nor changed |
| DeviceInfoReply.SecondAugmentIsIdle | VirtualMac/vz/host/PVGDeviceInfoReply.h:76-119 | a second identical call leaves the visible list unchanged |
| DeviceInfoNarrow.NarrowPair | VirtualMac/vz/host/PVGDeviceInfoReply.h:41-62 | the first entry of the key takes the value exactly if that narrows it |
| DeviceInfoNarrow.MayNarrowMeans | VirtualMac/vz/host/PVGDeviceInfoReply.h:46-55 | the bit tests mean sub-mask, larger power of two, or smaller number |
| DeviceInfoNarrow.NarrowingOn | VirtualMac/vz/host/PVGDeviceInfoReply.h:41-62 | narrowing composes and never goes back |
| Reexports.BasenameSurvives | VirtualMac/scripts/audit-ipados-dsc.py:44-45 | normalising an install name keeps its file name |
| Reexports.NormalizedShortens | VirtualMac/scripts/audit-ipados-dsc.py:44-45 | the first versioned framework directory is shortened, and then the rest |
| Reexports.SpellingsAgree | VirtualMac/scripts/audit-ipados-dsc.py:65-91 | both spellings of a framework library say the same |
| Reexports.ContentIsByKey | VirtualMac/scripts/audit-ipados-dsc.py:65-91 | what is said of a library depends on its normalised name only |
| Reexports.Search | VirtualMac/scripts/audit-ipados-dsc.py:122-173 | a search with a shared visited set finds a reachable exporter, or exhausts what it visited |
| Reexports.ExportsSymbol | VirtualMac/scripts/audit-ipados-dsc.py:122-173 | terminates on cyclic graphs and is true if and only if a reachable library exports the symbol |
| ScanText.Scan | VirtualMac/scripts/development/gdb-remote-probe.py:180-196 | returns the first match among the positions whose window some chunk shows |
| ScanText.ChunkedIsOnePass | VirtualMac/scripts/development/gdb-remote-probe.py:180-196 | which is the first match of one pass, for windows of at most 32 bytes |
| ScanText.OnePassFinds | VirtualMac/scripts/development/gdb-remote-probe.py:185-193 | one pass returns what the callback makes of the first aligned position with more than 28 bytes behind it that it accepts |
| ScanText.BlindIff | VirtualMac/scripts/development/gdb-remote-probe.py:181-194 | for wider windows, exactly which positions are never seen |
| ScanText.WideScanIsOnePassIff | VirtualMac/scripts/development/gdb-remote-probe.py:180-196 | for any width, chunked and one-pass scan agree on every callback and text if and only if no tested position is blind |
| ScanText.LoneBlindMatchIsLost | VirtualMac/scripts/development/gdb-remote-probe.py:180-196 | a blind match that is the only one is found by one pass and not by the chunked scan |
| ScanText.FortyByteBlindSpots | VirtualMac/scripts/development/gdb-remote-probe.py:303-323 | for the 40-byte callback and any start: which tested positions no chunk shows |
| ScanText.CsrPatternIsMissed | VirtualMac/scripts/development/gdb-remote-probe.py:303-323 | a text whose one pattern the 40-byte callback is never shown |
| CodeDirectory.ReadIndex | VirtualMac/scripts/development/verify-macho-code-directory.py:48-59 | succeeds exactly if blobs are in bounds, of different kinds and pairwise disjoint |
| CodeDirectory.CheckDirectory | VirtualMac/scripts/development/verify-macho-code-directory.py:64-102 | succeeds exactly if header, coverage, every page hash and every special slot are right |
| CodeDirectory.Check | VirtualMac/scripts/development/verify-macho-code-directory.py:12-105 | accepts exactly the files with one signature whose directories, at least one, all describe them; returns a record for each directory, in order |
| CodeDirectory.PagesTile | VirtualMac/scripts/development/verify-macho-code-directory.py:84-90 | pages tile the code without gap or overlap, only the last may be short |
| CodeDirectory.OnePagePerByte | VirtualMac/scripts/development/verify-macho-code-directory.py:84-90 | every byte below the limit is in exactly one page |
| CodeDirectory.DirectoryBindsCode | VirtualMac/scripts/development/verify-macho-code-directory.py:64-91 | two files under one directory agree below its limit, or one of their pages differs and has the same digest |
| CodeDirectory.AcceptedCodeAgrees | VirtualMac/scripts/development/verify-macho-code-directory.py:12-105 | the same of two accepted files |
| CodeDirectory.AcceptedHashes | VirtualMac/scripts/development/verify-macho-code-directory.py:82-102 | every page and every embedded blob in slots 2, 5 and 7 has its hash where the format puts it; an absent blob a zero one |
| CodeDirectory.AcceptedBlobsAgree | VirtualMac/scripts/development/verify-macho-code-directory.py:92-102 | two accepted files under one directory embed blobs of one digest in each of those slots, and if only one does that digest is zero |
| CodeDirectory.HeaderReads | VirtualMac/scripts/development/verify-macho-code-directory.py:70-77 | a directory laid out in the format is read field by field |
| CodeDirectory.SlotsFitIff | VirtualMac/scripts/development/verify-macho-code-directory.py:78-84 | which headers are in bounds |
| CodeDirectory.IndexReads | VirtualMac/scripts/development/verify-macho-code-directory.py:42-52 | so is the index of a superblob |
| CodeDirectory.FileReads | VirtualMac/scripts/development/verify-macho-code-directory.py:12-34 | and a file of header, load commands and the rest: its signature is the range its one LC_CODE_SIGNATURE names |

## Left out

- The disassembler, the cache reader and the symbol lookup: decoded instructions with the registers they write, the
  fixup list, the address-to-symbol map (with canonical names) and the addresses of localized strings are inputs. The
  original keys registers by the disassembler's identifiers, so `w8` and `x8` are different registers to it; the model
  takes the register identifiers and kill sets as they are reported.
- Header fields other than segment placement: section headers, symbol tables, the load command and the placing of the
  fixup payload at the end of the file, and what `dyld` checks of it beyond what it needs to find the entries.
- Pipeline.Relocate: fixup locations are distinct and 8-aligned, as the cache's slide information lists them; the
  rebuilt slots are given as one list.
- ClassData.PatchImage: sections that overlap in a class data field are outside its contract.
- `relayout` and `relayout_pad` (other layout modes), exception tables, unwind data, Objective-C method lists, external
  branches, and the extra Objective-C segment whose pointers are rebased after the classification loop.
- `rewrite_adrp` runs once per code section; `AdrpRewrite.Pass` is one section, and the section's trace output is left
  out.
- ExportTrie.FixTrie: exactness is stated for tries whose offset fields do not overlap each other or the bytes the walk
  reads as structure; termination is stated for every buffer.
- `Transaction.Txn`: null pointers; the mask test that can never fail because a mask bit is always a field; a
  transaction object keeps its CPU for its whole life; the 4-field module's shorter callback table is not told apart
  from the others'. A native read that succeeds is truthful, registers change only in setters, and calls do not
  overlap, as the header demands.
- `TransactionRuns`: interleavings are about CPUs whose callbacks leave the owner record alone; what holds of a
  tampering CPU is in the contracts of the single calls.
- `WaitTable`: `abort` on a failing pthread call, and fairness; tickets are ones that `monitor` returned for the same
  address, as the three functions' users do.
- `PciHelper`: the return address register and the flags that the call changes; writing the patched file.
- `DeviceInfoReply`: parsing of numbers in text.
- `Reexports`: how stubs are generated and parsed, and the memo dictionaries, which only cache them.
- `ScanText`: the remote protocol; a callback that looks past the bytes it is given instead of giving up.
- `CodeDirectory`: the hash functions are any functions, and the reported directory hash and flags are left out.
- Build, packaging, signing and deployment scripts, fixed-offset patchers, compatibility stubs, `air_normalize.cpp`,
  and the single-field register slices, which are weaker forms of the transaction.
