# Models and proofs for the BTF engine of libbpf and its neighbours

This project models, in Dafny, the parts of the repository whose correctness is hardest to see from the
code, and proves what they are for. `dafny verify dfyconfig.toml` checks all of it. The modules follow
the program:

* **BTF deduplication** (`libbpf/src/btf.c`). `BtfGraph` has the type records and what it means for two
  of them to describe the same, possibly cyclic, type: equality of their unfoldings to every depth, or
  up to what forward declarations leave open. `Contents` says which record may stand for which. `IdMap`
  is the union-find-like `map`; `BtfCompare` the hash and equality functions; `Hypothesis` the
  assumptions of the coinductive graph check; `DedupState` the invariant of each pass; `Renumbering`
  compaction and remapping; `Dedup` the passes themselves, as methods of a class that overwrite its
  arrays in place. `TypeSection` repeats compaction on bytes with its memmoves. `StringTable` and
  `StringDedup` are the string pass, and `DedupByText` puts the two halves together. `AmbiguousForward`
  is a graph on which one forward declaration joins two structs.
* **The C dumper** (`libbpf/src/btf_dump.c`). `TypeOrder` and `DumpOrder` are the ordering of
  definitions with strong and weak links, including what is defined in place behind pointers.
  `Declarator` has the text of a declarator, its meaning, and a parser for the grammar of sections 6.7
  and 6.7.6 of the C11 standard; `DeclPrinter` is the printer with its shared stack.
* **CO-RE relocation and linking** (`libbpf/src/libbpf.c`). `CoreSpec`, `CoreText`, `CoreSearch` and
  `CoreMatch` are field paths, their text form, and the speculative search for them in another type;
  `CoreBitfield` the load windows and shifts of bit-fields and the macros that use them, `CoreField`
  the value of each field relocation; `Linking` the appending of `.text`.
* **Supporting structures.** `HashModel` and `HashTable` are the growing chained hash table, with its
  chains rewired in place, `HashHistory` what a search finds after any operations; `XskRing` the AF_XDP
  rings with 32-bit counters that wrap; `PerfRing` the perf ring reader; `LineInfo` the line
  information index.
* **Connection events** (`release/bcc/tcpreq.c`, `src/collector/tcpreq.go`). `TcpEvents` has the probes
  as atomic steps, `TcpReports` the collector that reports on their events, with the array that its
  batches share.

`Words` has machine words and powers of two, `Common` error codes, options and sequences.

Conventions. A method that the source writes as a loop or as an update of its state is a method here,
proved against a specification function or predicate; what is promised is then proved about that
specification. Allocation failure is a nondeterministic choice (`var oom: bool := *`), so contracts
hold whether or not memory runs out. Callbacks, hash functions and the answers of functions that are
not modelled are parameters. `rank` and `w` parameters are ghost: they show that an order exists and
play no part in what is computed.

Where the code differs from its documentation the code is followed:

* `libbpf/src/btf.c:2388-2397` says that for FWDs no care is needed in recording what a check has
  found, and that recording it for structs has no part in correctness. But a FWD is found equivalent to
  any struct of its name, so two checks can join different structs through one FWD
  (`AmbiguousForward.SecondCheck`). One step joins different shapes exactly under the condition of
  `Contents.MergeKeepsShapesExactly`. If no forward declaration has two definitions that differ, every
  type keeps its unfolding (`Dedup.Deduper.Run`).
* `libbpf/src/hashmap.h:76-79` says that with appended values a search returns the one inserted last.
  Growth turns chains round: after any operations that holds exactly if the table has grown an even
  number of times since that insertion or the first and last value of the key are equal
  (`HashHistory.FindsNewestExactly`), which the capacity tells (`HashHistory.CapacityTells`). Four
  appends are enough for it to fail (`HashHistory.FourAppends`); without appends it always holds
  (`HashHistory.WithoutAppends`).
* `libbpf/src/libbpf.c:2906-2908` takes back the accessor of an incompatible member but not its index.
  A match that afterwards succeeds elsewhere in the same type has too long a path
  (`CoreMatch.MatchSample`). The path is the way to the field exactly if at no level the first member
  of the name, depth first, is incompatible (`CoreMatch.Spec.Match`), which unique names guarantee. A
  wrong path can still agree with the accessors by coincidence (`CoreMatch.MatchTwisted`).
* `libbpf/src/libbpf.c:3068` says that enums are taken to be unsigned; the code takes every enum to be
  signed (`CoreField.EnumsAreSigned`).
* `libbpf/src/btf_dump.c:237-248` speaks of all types that are referred to by another type. The code
  leaves out the return types of prototypes, so an unnamed enum that is only returned is written out as
  a declaration of its own (`DumpOrder.DumpEnumReturned`). Flags are missing exactly where only such
  prototypes, or FWDs, refer to a type (`TypeOrder.UnflaggedExactly`).
* `src/collector/tcpreq.go:203-207` hands out a slice of the buffer and then starts again at its front.
  A batch is intact exactly as long as no further event has been received
  (`TcpReports.Collector.ContentsRight`); read later, a report is lost and another delivered twice
  (`TcpReports.ReadLate`).
* `libbpf/src/bpf_core_read.h:71-76` has no breaks, so the direct bit-field macro always loads 8 bytes.
  It still reads the field on little-endian machines, and on big-endian ones exactly if the relocated
  window has 8 bytes (`CoreBitfield.DirectReadRightExactly`).

## Model

| member | source | states |
|---|---|---|
| `Dedup.Deduper.Run` | libbpf/src/btf.c:1245-1288 | On success the output graph is `Deduplicated`: every input type has an image of the same name and kind. An INT, and an enum with enumerators, is kept as it is; of reference types, VAR and DATASEC the whole record is, with its references renamed; a forward enum becomes itself or a definition of its name, size and flags. With forward declarations left alone every type keeps its unfolding to every depth, cycles included; with them resolved it keeps its unfolding up to what they leave open, provided none of them declares two definitions that differ. Every output type is an input type with its references renamed, no two output records of the exactly compared kinds are equal, nothing dangles. -ELOOP means that reference types cannot be ordered by what they refer to, and success that they can. On a graph of known kinds in which only sections refer to variables there is no other failure but for lack of memory. In every outcome `map` has no cycle but self-loops. |
| `Contents.RootFaithful` | libbpf/src/btf.c:2121-2126 | What a type resolves to may stand for it: an equal record for INT and full enums, a definition for a forward declaration, a record of the same shape for reference types, and for structs and unions one of the same name and kind, of the same shape too unless a FWD of that name is ambiguous. |
| `Renumbering.RebuiltKept` | libbpf/src/btf.c:2678-2884 | So the output record of each type keeps its contents; reference types, VAR and DATASEC keep their own record with each reference renamed. |
| `Renumbering.RebuiltSimilar` | libbpf/src/btf.c:2678-2884 | With forward declarations resolved and unambiguous, every type and its output have the same unfolding to every depth, where a forward declaration looks like what it declares. |
| `BtfGraph.LikeTransitive` | libbpf/src/btf.c:2257-2382 | Looking alike up to forward declarations is transitive if no forward declaration is ambiguous; that is why types may be joined one after the other. |
| `BtfGraph.DefinedOnce` | libbpf/src/btf.c:2275-2300 | No forward declaration is ambiguous if each has one definition at most. |
| `Contents.MergeKeepsShapesExactly` | libbpf/src/btf.c:2417-2453 | Recording one pair of a finished check leaves every struct and union with one of its own shape if and only if it does not join an open one to a settled one of another shape. |
| `AmbiguousForward.FirstCheck` | libbpf/src/btf.c:2275-2300 | In a concrete graph the check of two structs, finished without contradiction, relates a FWD to one definition of its name ... |
| `AmbiguousForward.SecondCheck` | libbpf/src/btf.c:2410-2454 | ... and a second check relates it to another one: recording its pairs joins two structs with different members. |
| `AmbiguousForward.NotLike` | libbpf/src/btf.c:2410-2454 | The two do not look alike, and the FWD is ambiguous. |
| `Renumbering.RebuiltIsDeduplicated` | libbpf/src/btf.c:2678-2884 | The state left by the reference, compaction and remap passes satisfies `Deduplicated` for the renumbering they computed. |
| `Dedup.Deduper.constructor` | libbpf/src/btf.c:1407-1467 | The starting maps: void, VAR and DATASEC canonical, all else unprocessed, no assumption recorded. |
| `Dedup.Deduper.ResolveTypeId` | libbpf/src/btf.c:2121-2126 | The walk ends, and at the root of the id; possible because no update ever closes a cycle. |
| `Dedup.Deduper.ResolveFwdId` | libbpf/src/btf.c:2132-2146 | A resolved FWD stands for what it was resolved to, any other id for itself. |
| `IdMap.RedirectKeepsAcyclic` | libbpf/src/btf.c:2436-2452 | Pointing an unmapped id, or a root, at another root keeps every walk along `map` finite. |
| `IdMap.RedirectRootKeepsAcyclic` | libbpf/src/btf.c:2067-2068 | A root may even be redirected to an id that is no root, if that does not lead back: the overwrite of a canonical forward enum by its definition. |
| `IdMap.MarkKeepsAcyclic` | libbpf/src/btf.c:2585-2585 | The in-progress mark changes no walk of other ids into a cycle. |
| `IdMap.RootAfterRedirect` | libbpf/src/btf.c:2121-2126 | After one redirection exactly the ids that resolved to the old root resolve to the new one. |
| `IdMap.RootSound` | libbpf/src/btf.c:2121-2126 | If every hop leads to an alike type, so does resolution. |
| `IdMap.SameRootAlike` | libbpf/src/btf.c:2257-2259 | Two ids that resolve to one type are alike: the shortcut of the graph check is sound. |
| `BtfCompare.EqualCommonIsEquality` | libbpf/src/btf.c:1756-1784 | For kinds without trailing data, and for INT, the comparison decides equality of whole records. |
| `BtfCompare.EqualEnum` | libbpf/src/btf.c:1799-1818 | Decides equality of enums, enumerators included. |
| `BtfCompare.CompatEnum` | libbpf/src/btf.c:1825-1833 | True exactly for equal enums and for a forward enum beside any enum of the same name and flags. |
| `BtfCompare.CompatibleEnumsMeet` | libbpf/src/btf.c:1787-1797 | Compatible enums are filed under one hash, so the search meets every pair of them. |
| `BtfCompare.ShallowEqualStruct` | libbpf/src/btf.c:1861-1880 | True exactly when two composites agree in everything but the ids they refer to. |
| `BtfCompare.EqualShapesShareHash` | libbpf/src/btf.c:1840-1855 | Composites that agree so have one hash, whatever they refer to. |
| `BtfCompare.HashStruct` | libbpf/src/btf.c:1840-1855 | The loop computes the hash function that those lemmas are about. |
| `BtfCompare.HashFnproto` | libbpf/src/btf.c:1937-1952 | The same for prototypes. |
| `BtfCompare.EqualFnproto` | libbpf/src/btf.c:1959-1978 | Decides equality of prototypes, parameters included. |
| `BtfCompare.CompatFnproto` | libbpf/src/btf.c:1985-2006 | True exactly when two prototypes agree in everything but the ids they refer to. |
| `Dedup.Deduper.FindEqual` | libbpf/src/btf.c:2038-2048 | Finds a filed record equal to the given one, whatever the order of candidates; if it finds none, there is none under that hash. |
| `Dedup.Deduper.FindEnum` | libbpf/src/btf.c:2050-2071 | Finds an equal enum if there is one. When forward declarations are resolved, a forward enum joins any definition filed, and a definition overwrites every forward enum filed and nothing else, all without closing a cycle. |
| `DedupState.PrimOverwrite` | libbpf/src/btf.c:2067-2068 | Overwriting a canonical forward enum keeps the invariant of the pass although for a moment it points at a type that is not canonical yet. |
| `DedupState.PrimFinish` | libbpf/src/btf.c:2089-2093 | Ending a type's turn re-establishes the invariant for the next id: filed and canonical, or joined to an alike type. |
| `Dedup.Deduper.DedupPrimTypes` | libbpf/src/btf.c:2096-2106 | After the pass every INT, ENUM and FWD is mapped to an alike type and all filed records differ. |
| `Hypothesis.CompleteBisimilar` | libbpf/src/btf.c:2247-2382 | If every assumed pair has been checked, related ids look the same at every depth: the assumptions form a bisimulation up to `map`. |
| `Hypothesis.CompleteLike` | libbpf/src/btf.c:2247-2382 | The same with forward declarations resolved: related ids look alike at every depth, up to what forward declarations leave open. |
| `Hypothesis.CompleteAlike` | libbpf/src/btf.c:2410-2421 | Each pair of a finished hypothesis is alike: same name and kind, and the same unfolding when forward declarations are not resolved, or up to them when they are and none is ambiguous. |
| `Hypothesis.RelatedAlike` | libbpf/src/btf.c:2516-2523 | The same of every pair that the check declared equivalent. |
| `Hypothesis.PairChecked` | libbpf/src/btf.c:2263-2268 | A pair that was assumed, and then found equal with its children, is discharged together with all assumptions made below it. |
| `Hypothesis.NewCheckedChain` | libbpf/src/btf.c:2335-2376 | Assumptions discharged in one stretch of a check stay so in the next. |
| `Hypothesis.FreshCheckComplete` | libbpf/src/btf.c:2516-2517 | A check that starts with no assumption leaves none undischarged. |
| `Hypothesis.ExpectedPair` | libbpf/src/btf.c:2257-2268 | A pair that a contradiction-free hypothesis relates is one type already, was assumed just so, or is assumed now in keeping with the hypothesis. |
| `Hypothesis.ExpectedAgree` | libbpf/src/btf.c:2275-2382 | The records of such a pair pass the comparison of their kind. |
| `Hypothesis.AddListed` | libbpf/src/btf.c:1349-1364 | An added entry is listed once, every set entry is listed, and the unset entries strictly shrink. |
| `Dedup.Deduper.HypotMapAdd` | libbpf/src/btf.c:1349-1364 | The list and the map stay in step; each success uses up an unset entry, without memory nothing changes. |
| `Dedup.Deduper.ClearHypotMap` | libbpf/src/btf.c:1366-1373 | Visiting only the listed entries resets all of them. |
| `Dedup.Deduper.IsEquiv` | libbpf/src/btf.c:2247-2382 | Terminates on cyclic graphs. A positive answer relates the two ids, only adds assumptions, and discharges all that this call added, given that those made before hold. It does not answer no if there is any hypothesis without contradiction that goes on from the assumptions made and relates the two. |
| `Dedup.Deduper.NodesEquiv` | libbpf/src/btf.c:2270-2382 | A positive answer has compared the two records themselves and related all they refer to. |
| `Dedup.Deduper.ModifiersEquiv` | libbpf/src/btf.c:2311-2319 | The same for pointers, qualifiers, typedefs and functions. |
| `Dedup.Deduper.CompositesEquiv` | libbpf/src/btf.c:2335-2354 | The same for structs and unions, member by member. |
| `Dedup.Deduper.ArraysEquiv` | libbpf/src/btf.c:2321-2333 | The same for arrays, element and index type. |
| `Dedup.Deduper.ProtosEquiv` | libbpf/src/btf.c:2356-2376 | The same for prototypes, return type and parameters. |
| `Dedup.Deduper.MergeHypotMap` | libbpf/src/btf.c:2410-2454 | Records exactly the pairs of the finished hypothesis, in order, where that is safe: afterwards `map` still has no cycle, leads only to alike types, and the table is still consistent. |
| `Dedup.Deduper.MergePair` | libbpf/src/btf.c:2417-2453 | One pair: by its roots, a FWD is pointed at what it was related to, and an open struct at a settled one; nothing else changes. |
| `Contents.RootShapes` | libbpf/src/btf.c:2417-2453 | The roots of a checked pair have one shape, if they are structs or unions and no FWD is ambiguous for them. |
| `Hypothesis.FwdJoinsDefinition` | libbpf/src/btf.c:2436-2439 | After that the FWD and the definition resolve to the definition. |
| `DedupState.LinkForward` | libbpf/src/btf.c:2436-2439 | A FWD may be pointed at the definition it was found alike to without breaking the struct phase. |
| `DedupState.LinkComposite` | libbpf/src/btf.c:2441-2452 | So may a struct that is still open at one that is settled. |
| `Dedup.Deduper.TryCandidate` | libbpf/src/btf.c:2516-2523 | Answers yes exactly if the two types can be related without contradiction under the mapping so far, and then they are alike; a no leaves `map` as it was. |
| `Dedup.Deduper.DedupStructType` | libbpf/src/btf.c:2478-2532 | A struct or union becomes canonical exactly if no candidate of its hash and shape can be related to it, and otherwise joins one that can; the invariant of the pass is kept. |
| `Dedup.Deduper.FindStruct` | libbpf/src/btf.c:2497-2525 | The search behind that misses no candidate, whatever their order. |
| `Dedup.Deduper.DedupStructTypes` | libbpf/src/btf.c:2534-2546 | After the pass all but reference types are mapped, to alike types. |
| `DedupState.RefRewrite` | libbpf/src/btf.c:2594-2653 | Replacing one reference by its canonical type changes no meaning and no resolution. |
| `DedupState.RefFinish` | libbpf/src/btf.c:2671-2675 | The rewritten type becomes canonical and is filed, or joins a filed record equal to it; either way it resolves to a canonical type alike to it. |
| `DedupState.EqualRecordsAlike` | libbpf/src/btf.c:2599-2665 | Equal rewritten records come from alike types of the input. |
| `Dedup.Deduper.DedupRefType` | libbpf/src/btf.c:2570-2676 | Terminates on cyclic graphs, strictly using up unprocessed ids; returns the canonical id the type resolves to; does not touch finished or entered types; -ELOOP cannot come from a graph in which reference types can be ordered. |
| `Dedup.Deduper.RewriteRefs` | libbpf/src/btf.c:2594-2653 | All references of the type now name canonical types that were finished before it. |
| `Dedup.Deduper.Settle` | libbpf/src/btf.c:2599-2675 | Maximal sharing: the type joins an equal record if one is filed, so no two canonical reference types of one kind are equal. |
| `DedupState.FinishOrder` | libbpf/src/btf.c:2570-2691 | Success yields an order in which reference types come after what they refer to. |
| `Dedup.Deduper.DedupRefTypes` | libbpf/src/btf.c:2678-2691 | After the pass every type is mapped, every stored reference is canonical, and input reference types can be ordered. |
| `Renumbering.NewIdOrder` | libbpf/src/btf.c:2719-2732 | The renumbering of canonical types preserves their order and gives no number twice. |
| `Renumbering.NewIdOnto` | libbpf/src/btf.c:2719-2732 | Every number from 1 to the count of canonical types is given. |
| `Renumbering.CompactionStep` | libbpf/src/btf.c:2719-2732 | Sliding one record down overwrites none that is still to be moved. |
| `Dedup.Deduper.CompactTypes` | libbpf/src/btf.c:2704-2752 | Record n is the n-th canonical record, unchanged, and hypot_map holds the new number of canonical ids and the unprocessed mark for all others. |
| `Dedup.Deduper.RemapTypeId` | libbpf/src/btf.c:2760-2771 | Never fails, and yields the new number of what the id resolves to. |
| `Dedup.Deduper.RemapType` | libbpf/src/btf.c:2781-2872 | Field by field: the type id in the second word of pointers, FWDs, typedefs, qualifiers, functions, prototypes and variables, element and index of arrays, and the type of each member, parameter and section entry become the new number of what they resolved to, and no other field changes. |
| `Contents.RenamedExactly` | libbpf/src/btf.c:2781-2872 | A record with its references renamed is one with exactly those fields renamed. |
| `Renumbering.RebuiltFields` | libbpf/src/btf.c:2781-2872 | The same of the final numbers of deduplication. |
| `Dedup.Deduper.RemapTypes` | libbpf/src/btf.c:2874-2884 | Never fails, and rebuilds all records so. |
| `Renumbering.RebuiltSame` | libbpf/src/btf.c:2704-2884 | Every input id and the new number of what it resolves to look the same at every depth. |
| `Renumbering.RenumberingInjective` | libbpf/src/btf.c:2760-2771 | Records with canonical references stay different when renumbered. |
| `Renumbering.RebuiltHasNoDuplicates` | libbpf/src/btf.c:2570-2691 | No two output records of the exactly compared kinds are equal. |
| `TypeSection.Section.CompactTypes` | libbpf/src/btf.c:2704-2752 | On bytes: after the moves the section holds exactly the canonical records, unchanged and in order, and the index leads from each new number to the bytes of its record; then comes the unchanged string section without a gap or, without memory for the smaller index, that section is where it was. |
| `TypeSection.Section.CopyRecords` | libbpf/src/btf.c:2719-2732 | The record sizes read from memory during the loop are those of the original records, as no header is overwritten before it is read. |
| `TypeSection.RecordMeasured` | libbpf/src/btf.c:145-178 | A record written as bytes, header and entries word by word, is measured from its header at exactly its length. |
| `TypeSection.SlideOne` | libbpf/src/btf.c:2723-2730 | One memmove extends the compacted prefix by exactly one record and leaves every later record intact. |
| `TypeSection.SurvivorsShort` | libbpf/src/btf.c:2719-2732 | The compacted records never reach beyond the record to be copied next. |
| `TypeSection.SurvivorsHold` | libbpf/src/btf.c:2727-2730 | A record that has been copied is not overwritten by later copies. |
| `StringDedup.BtfData.DedupStrings` | libbpf/src/btf.c:1631-1744 | Unless memory runs out it fails exactly if some referenced offset is not the start of a text; a failure of either kind changes nothing. Otherwise every place in types and line information denotes the text it denoted before, and the section is the strictly sorted list of the used texts and the empty one at offset 0, no longer than before. |
| `StringDedup.BuildIndex` | libbpf/src/btf.c:1646-1666 | Unless memory runs out, the index holds exactly the starts of texts, and their texts with terminators fill the section. |
| `StringDedup.MarkAll` | libbpf/src/btf.c:1472-1557 | Visits every place: succeeds exactly if all their offsets are starts, and then exactly the visited texts and the first are marked. |
| `StringDedup.Compact` | libbpf/src/btf.c:1688-1723 | Whatever order equal texts have after sorting, each text with a used instance is written once, in strictly increasing order, and all its instances get its place. |
| `StringDedup.EmittedKept` | libbpf/src/btf.c:1709-1717 | Writing one group keeps the output sorted, duplicate-free, made of used texts only, and within the space of the groups passed. |
| `StringDedup.EmittedPlaced` | libbpf/src/btf.c:1709-1717 | ... and all instances of the group, as well as all earlier ones, lead to their texts. |
| `StringDedup.IndexLeads` | libbpf/src/btf.c:1730-1736 | After sorting back by offset the index leads from every visited offset to the same text in the new section. |
| `StringDedup.BtfData.Remap` | libbpf/src/btf.c:1733-1736 | Rewrites every place to an offset of the same text and changes nothing else; cannot fail. |
| `StringDedup.SetName` | libbpf/src/btf.c:1603-1618 | Overwriting one name offset changes that offset and nothing else of the record. |
| `StringDedup.NamesExactly` | libbpf/src/btf.c:1472-1524 | The names that keep their texts are those of the type and of each member, enumerator and parameter, and no other field of a record changes. |
| `StringTable.StartsAre` | libbpf/src/btf.c:1646-1666 | The positions visited are all starts of texts, in increasing order. |
| `StringTable.SortedBlobOffsets` | libbpf/src/btf.c:1688-1723 | In the new section two offsets are equal exactly if their texts are: comparing name offsets, as the later passes do, is comparing names. |
| `StringTable.BlobStarts` | libbpf/src/btf.c:1709-1717 | The texts of the section written start where they were put and nowhere else. |
| `StringTable.SpacePermutes` | libbpf/src/btf.c:1681-1682 | Sorting does not change the total space of the texts. |
| `StringTable.BeforeExactly` | libbpf/src/btf.c:1559-1565 | The order of texts: the first character that differs decides, and a text comes before its extensions. |
| `DedupByText.KeepsNames` | libbpf/src/btf.c:1256-1284 | Strings and types together: every type keeps its kind and the text of its name. |
| `DedupByText.KeepsUnfoldings` | libbpf/src/btf.c:1256-1284 | With forward declarations left alone it keeps its whole unfolding, names compared as texts in their own sections. |
| `DedupByText.KeepsLikeness` | libbpf/src/btf.c:1256-1284 | With forward declarations resolved it keeps its unfolding up to them, if none is ambiguous by the text of its name. |
| `DedupByText.KeepsContents` | libbpf/src/btf.c:1256-1284 | It keeps its contents, names compared as texts: equal records for INT and full enums, the same records up to references otherwise, a definition for a forward declaration. |
| `DedupByText.NoTwoAlike` | libbpf/src/btf.c:1256-1284 | No two exactly compared output records are equal even when names are compared as texts. |
| `DedupByText.DedupAll` | libbpf/src/btf.c:1245-1288 | The whole call on a string section and its types, run: on success names, kinds, contents and unfoldings are kept as `Dedup.Deduper.Run` keeps them, names read as texts in their own sections; no two exactly compared records are equal by text; line information denotes the texts it did, and the section holds each of its texts once; -ELOOP means that reference types cannot be ordered by what they refer to, and success that they can. |
| `DedupByText.RenamedGraph` | libbpf/src/btf.c:1256-1284 | What the string pass leaves is a well-formed graph with the references it had, so the type passes apply to it. |
| `Declarator.PrintThenParse` | libbpf/src/btf_dump.c:1054-1335 | Parsing what was printed, by the grammar of sections 6.7 and 6.7.6 of the C11 standard, returns the same name (or none) and the same type, for every chain without qualified function types: order of qualifiers aside, without the qualifiers of arrays, and with `()` for `(void)`. |
| `Declarator.DeclarationSeparated` | libbpf/src/btf_dump.c:1163-1335 | No two words of the output stand next to each other without a space. |
| `Declarator.ReadDeclarator` | libbpf/src/btf_dump.c:1163-1335 | Reading a printed declarator that is followed by a closing parenthesis, a comma or nothing, as all of them are, stops exactly at its end. |
| `Declarator.ReadWrapped` | libbpf/src/btf_dump.c:1238-1324 | With the parentheses that are printed, the array bounds or parameters are read back as those of the whole declarator before them, and reading goes on behind them. |
| `Declarator.DeclaratorDeclares` | libbpf/src/btf_dump.c:1163-1335 | The declarator read declares the name with the type of the chain. |
| `Declarator.BareChain` | libbpf/src/btf_dump.c:1163-1335 | Leaving out spaces, the output is the token sequence of the chain in C's inside-out order. |
| `DeclPrinter.Printer.EmitTypeDecl` | libbpf/src/btf_dump.c:1054-1127 | Prints exactly `EmitChain` of the chain from the type to its end, and leaves the shared stack as it found it, also when it nests or fails. |
| `DeclPrinter.Printer.ChainMeansType` | libbpf/src/btf_dump.c:1054-1104 | The chain of a type means the C type of its record: a pointer to what it points at, an array of its elements, the qualified type, a function with its return type and parameters; an array leads on to its element type. |
| `DeclPrinter.Printer.PrintedDeclares` | libbpf/src/btf_dump.c:1054-1335 | So parsing what is printed for a type gives the name and the C type of its record. |
| `DeclPrinter.Printer.ChainExists` | libbpf/src/btf_dump.c:1054-1104 | Every type has such a chain, if the types it leads to, parameters included, have no cycle without a specifier. |
| `DeclPrinter.Printer.OneChain` | libbpf/src/btf_dump.c:1054-1104 | A type has at most one, so what is printed is determined by the graph. |
| `DeclPrinter.Printer.PushChain` | libbpf/src/btf_dump.c:1061-1104 | Pushes the whole chain or, without memory, nothing. |
| `DeclPrinter.Printer.EmitTypeChain` | libbpf/src/btf_dump.c:1163-1335 | Popping the frame from the top prints the chain from the base outwards, for every nesting of pointers, arrays and prototypes. |
| `DeclPrinter.Printer.EmitMods` | libbpf/src/btf_dump.c:1129-1153 | Pops exactly the qualifiers on top and prints each once. |
| `DeclPrinter.Printer.EmitArray` | libbpf/src/btf_dump.c:1238-1282 | The array case, with the qualifiers of the array itself dropped. |
| `DeclPrinter.Printer.EmitFuncProto` | libbpf/src/btf_dump.c:1283-1324 | The prototype case, with nested declarations of the parameters on the same stack. |
| `DeclPrinter.Printer.EmitParams` | libbpf/src/btf_dump.c:1303-1320 | All parameters in order; a sole void one is left out, a last one stands for `...`. |
| `DeclPrinter.Printer.ChainIsLegal` | libbpf/src/btf_dump.c:1061-1104 | In a graph without qualified function types every chain is one that can be read back. |
| `DumpOrder.Dumper.DumpType` | libbpf/src/btf_dump.c:198-235 | After any sequence of successful calls the list of finished types is topological, all that the type needs is finished, and the queue holds exactly the finished types that are written out on their own: named ones, typedefs, and unnamed enums and FWDs that no type uses. On a graph of known kinds, a call for a type whose definitions can be ordered fails for lack of memory only. |
| `DumpOrder.Dumper.OrderType` | libbpf/src/btf_dump.c:403-544 | Terminates if the types it walks have no cycle of references alone. Success keeps the order invariant and finishes all that the type needs where it is used; a positive result, all that it would need if it were embedded. |
| `DumpOrder.Dumper.OrderComposite` | libbpf/src/btf_dump.c:448-476 | A struct or union is finished after everything its members need. |
| `DumpOrder.Dumper.OrderPointer` | libbpf/src/btf_dump.c:440-443 | A pointer is done with once all is finished that the type behind it needs there: nothing for a struct with a name, but everything embedded in one without. |
| `DumpOrder.Dumper.MarkReferenced` | libbpf/src/btf_dump.c:249-308 | Flags exactly the ids that some type refers to, leaving out FWDs and the return types of prototypes. |
| `TypeOrder.UnflaggedExactly` | libbpf/src/btf_dump.c:237-308 | A type that is referred to stays unflagged if and only if only FWDs and prototypes that return it without taking it do so. |
| `DumpOrder.DumpEnumReturned` | libbpf/src/btf_dump.c:237-308 | For an unnamed enum that only a prototype returns, the enum is queued as a declaration of its own although a type refers to it. |
| `DumpOrder.DumpEnumEmbedded` | libbpf/src/btf_dump.c:484-492 | For a struct with an unnamed enum as a member, only the struct is queued. |
| `DumpOrder.Dumper.QueueIsRight` | libbpf/src/btf_dump.c:310-326 | What has been queued, over all calls, is exactly what is finished and written out on its own. |
| `TypeOrder.FlaggedIsUsed` | libbpf/src/btf_dump.c:249-308 | Flagged is exactly what some type but a FWD uses, other than as the return type of a prototype. |
| `TypeOrder.FinishKeepsConsistent` | libbpf/src/btf_dump.c:468-475 | A type whose needs are covered may be finished: the list stays topological and free of repetitions other than typedefs. |
| `TypeOrder.CoveredByLinks` | libbpf/src/btf_dump.c:403-544 | All that a type needs is finished once it is itself, if it must be, and all that its links need is: the links into members, through arrays, typedefs and qualifiers, and behind pointers into composites without a name. |
| `TypeOrder.NeedsLessBehind` | libbpf/src/btf_dump.c:435-534 | Whatever is needed where a pointer has been passed is needed without it. |
| `TypeOrder.InPlaceBehindPointer` | libbpf/src/btf_dump.c:350-366 | A struct with a pointer to an unnamed struct needs what the unnamed struct embeds. |
| `TypeOrder.NoSelfEmbedding` | libbpf/src/btf_dump.c:427-433 | A struct or union that needs itself, embedded or inside an unnamed struct behind a pointer, is never finished, so ordering it must fail. |
| `TypeOrder.OnlyBehindPointer` | libbpf/src/btf_dump.c:427-433 | If definitions can be ordered, a type that is being ordered is met again only behind a pointer and with a name, where a forward declaration will do: -ELOOP is never a false alarm. |
| `TypeOrder.WeightDrops` | libbpf/src/btf_dump.c:435-534 | Every recursive call is for something that comes before in such an order. |
| `TypeOrder.QueueIsTopological` | libbpf/src/btf_dump.c:329-544 | Each queued type comes after every written-out type that it needs, also for what it defines in place behind pointers. |
| `TypeOrder.MembersComeFirst` | libbpf/src/btf_dump.c:329-544 | In particular, what a queued struct or union has as a member, alone or in an array, comes before it if it is written out, and so does an enum or FWD that a member points at. |
| `TypeOrder.QueuedOnce` | libbpf/src/btf_dump.c:310-326 | Nothing but a typedef is queued twice. |
| `CoreMatch.Spec.Match` | libbpf/src/libbpf.c:2922-2988 | Result, path and accessors are those of the match on values, one accessor after the other. Result 1: names and array indices are those of the local path, and there is a way through the target, over compatible members, whose parsing gives exactly the accessors found. The indices recorded are that way if and only if no level rejects the first member of a name, and are longer otherwise; if they are, the bit offset is that of the field. With flattened names unique, no level rejects one, and result 0 means that there is no such way. If sizes are known and the compatibility test does not fail, the only error is a full path. |
| `CoreMatch.Spec.MatchMember` | libbpf/src/libbpf.c:2846-2916 | The in-place search with push and pop equals the recursive one on values, and never leaves the 64 slots. |
| `CoreSearch.SearchAgrees` | libbpf/src/libbpf.c:2846-2916 | That search ends with the path to the first member of the name, depth first, if that one is compatible, with no trace if there is none; and after rejecting it always with leftover indices. |
| `CoreSearch.FindIsFirst` | libbpf/src/libbpf.c:2870-2915 | The path found is the first of all paths that spell the name through unnamed members; if none is found there is none. |
| `CoreSearch.SearchErrors` | libbpf/src/libbpf.c:2877-2879 | The search fails only on a full path of 64 indices or with an error of the compatibility test. |
| `CoreMatch.MemberFound` | libbpf/src/libbpf.c:2893-2913 | A successful search has recorded a compatible member; the path has grown by exactly the way to it if and only if the first member of the name was not rejected, and by more otherwise. |
| `CoreMatch.MemberMissing` | libbpf/src/libbpf.c:2846-2916 | With unique names, finding nothing means that nothing compatible is there. |
| `CoreMatch.RejectedMemberStays` | libbpf/src/libbpf.c:2903-2908 | In a concrete struct with two members of one name, the first incompatible, the search of members succeeds with a path that cannot be parsed. |
| `CoreMatch.MatchSample` | libbpf/src/libbpf.c:2922-2988 | The match of a whole path against that struct, run: it reports success with indices that cannot be parsed. |
| `CoreMatch.MatchTwisted` | libbpf/src/libbpf.c:2922-2988 | The match against the union of the next row, run: it reports success with indices that are not the way to the member found. |
| `CoreMatch.RejectedMemberHides` | libbpf/src/libbpf.c:2903-2908 | A concrete union for which the indices left behind are not the way to the member found, but can be parsed to the same accessors by coincidence. |
| `CoreMatch.Spec.Parse` | libbpf/src/libbpf.c:2571-2671 | Fills the spec with what following the indices in the access string gives, or fails with its error, as it does for text that is not a path and for more than 64 indices. |
| `CoreSpec.OffsetWord` | libbpf/src/btf.h:270-289 | A member's offset word is the width of a bit-field times 2^24 plus its place with the kind flag, and the place alone without. |
| `CoreSpec.MemberOffset` | libbpf/src/libbpf.c:2604-2646 | A path to a named member has the bit offset of the start plus the place in its offset word, without the width. |
| `CoreSpec.ElementOffset` | libbpf/src/libbpf.c:2647-2664 | A path on to an element of an array moves on by index times size in bits. |
| `CoreMatch.ParseBitField` | libbpf/src/libbpf.c:2571-2671 | Parsing "0:1" for a bit-field 3 bits wide at bit 32, run: the bit offset is 32. |
| `CoreText.TwoDigits` | libbpf/src/libbpf.c:2586-2602 | Digits are read with base ten. |
| `CoreText.ReadIndicesSpelled` | libbpf/src/libbpf.c:2583-2602 | The access string that spells a list of indices is read as that list, unless there are none or more than 64. |
| `CoreMatch.Spec.ReadText` | libbpf/src/libbpf.c:2586-2602 | The loop over the text reads exactly the indices that the text denotes. |
| `CoreMatch.AlongIsPath` | libbpf/src/libbpf.c:2608-2657 | Parsing yields accessors whose names are those of the members they point at, at most one per index. |
| `CoreSpec.AlongSpelled` | libbpf/src/libbpf.c:2625-2647 | Following a path through unnamed members adds one accessor and the sum of the offsets, modulo 2^32. |
| `CoreSpec.SkipModsAndTypedefs` | libbpf/src/libbpf.c:1046-1062 | Ends at the first type that is no typedef or qualifier. |
| `CoreBitfield.LoadWindow` | libbpf/src/libbpf.c:3029-3043 | Succeeds exactly if the aligned 8 bytes around the field's first bit hold it all; the window is aligned, contains the field, is at least as large as the declared type, and no smaller one would do; u32 wrap-around included. |
| `CoreBitfield.CalcRelocs` | libbpf/src/libbpf.c:3074-3082 | The patched shifts place the field at the top of 64 bits and then at the bottom, for either byte order. |
| `CoreBitfield.ReadBitfieldProbed` | libbpf/src/bpf_core_read.h:31-59 | For any containing window, byte order, signedness and memory content, the macro yields exactly the field, zero- or sign-extended. |
| `CoreBitfield.ShiftsIsolate` | libbpf/src/bpf_core_read.h:51-58 | Shifting left and then right, logically or arithmetically, isolates and widens any run of bits of a word. |
| `CoreBitfield.LoadIsValue` | libbpf/src/bpf_core_read.h:22-40 | Loading bytes as an integer spells their bits in the order in which fields number them, on either byte order. |
| `CoreBitfield.ReadBitfieldDirect` | libbpf/src/bpf_core_read.h:66-84 | The macro without breaks in its switch reads the same field on a little-endian machine, and the bits 8 - size bytes further on otherwise. |
| `CoreBitfield.DirectReadRightExactly` | libbpf/src/bpf_core_read.h:66-84 | Hence it is right for every memory content if and only if the machine is little-endian or the window has 8 bytes. |
| `CoreField.CalcFieldRelo` | libbpf/src/libbpf.c:2990-3094 | Decides exactly which relocations apply to what the last accessor of the path names, an array element, a bit-field or another member, and with which error they fail otherwise; each that succeeds gives its part of one and the same load, and its value is to be checked unless it is ambiguous. |
| `CoreField.ReadField` | libbpf/src/libbpf.c:2990-3094 | A program that reads a bit-field, or an integer at a whole byte, with the five values relocated one by one gets exactly the field, zero- or sign-extended, on either byte order. |
| `CoreField.EncodedSign` | libbpf/src/libbpf.c:3066-3073 | The sign of an integer is the lowest of the four encoding bits in the word behind its record. |
| `CoreField.EnumsAreSigned` | libbpf/src/libbpf.c:3066-3073 | The signedness relocation of a field of an enum type is always 1. |
| `CoreField.OneLoad` | libbpf/src/libbpf.c:3029-3043 | The separate relocations of a bit-field cannot disagree: the load they describe is determined by the field. |
| `CoreField.PlainRelocs` | libbpf/src/libbpf.c:3044-3051 | For an integer at a whole byte the shifts of a member that is no bit-field fit the same load-and-shift sequence. |
| `Linking.Program.Relocate` | libbpf/src/libbpf.c:3607-3660 | The text is appended at most once and only if there is a call; each relocation has its effect on the instructions it names and all others are unchanged; function and line information of the text follows that of the main section, moved by the length of the main program. With all relocations in place, a text to call and information about it, it fails for lack of memory only. |
| `Linking.CallsLandOnCopies` | libbpf/src/libbpf.c:3601-3603 | Each relocated call goes to the copy, in the program, of the .text instruction that it named, without overflow of the immediate. |
| `Linking.LoadsNameMaps` | libbpf/src/libbpf.c:3638-3643 | Each relocated load has source field 1 and the descriptor of its map or, for data, source field 2, the descriptor, and in its second half the offset of the symbol plus the addend found in the first half, modulo 2^32 and exactly if it fits. |
| `Linking.CodesStay` | libbpf/src/libbpf.c:3607-3660 | No relocation changes an operation code, destination register or offset. |
| `Linking.PatchCall` | libbpf/src/libbpf.c:3601-3603 | Redirecting a call leaves alone what other relocations have done. |
| `Linking.PatchLoad` | libbpf/src/libbpf.c:3628-3643 | So does patching in a map address. |
| `Linking.Program.RelocText` | libbpf/src/libbpf.c:3554-3605 | Appends the text the first time only, and fails for calls inside .text or without one. |
| `Linking.Program.RelocLoad` | libbpf/src/libbpf.c:3628-3643 | Fails exactly if the second half is out of range; writes only what the relocation may touch. |
| `Linking.Program.RelocExt` | libbpf/src/libbpf.c:2471-2510 | Adds the information of a section, moved; a missing section is an error exactly if some information is already there. |
| `Linking.RelocInfo` | libbpf/src/btf.c:1020-1066 | Appends the records of the first section of that name with offsets in instructions from the program's start; -ENOENT exactly if there is none. |
| `PerfRing.PerfPage.ReadSimple` | libbpf/src/libbpf.c:5865-5911 | Callbacks get exactly a prefix of the records between tail and head, in order and byte for byte; the tail moves by exactly their sizes, also on early stop and without memory; if the last answer is to go on, all were delivered. |
| `PerfRing.PerfPage.CopySplit` | libbpf/src/libbpf.c:5882-5901 | A record that is split by the end of the buffer is put together from its two pieces, without writing outside the copy. |
| `PerfRing.RecordAt` | libbpf/src/libbpf.c:5878-5880 | The header found at the masked tail is that of the next record of the stream. |
| `PerfRing.SizeSpelled` | libbpf/src/libbpf.c:5878-5880 | The size of a record is the 16-bit number, lowest byte first, at the end of its 8-byte header. |
| `PerfRing.HeldPiece` | libbpf/src/libbpf.c:5879-5900 | Any run of the stream is found in the buffer in one piece or in two. |
| `LineInfo.ProgLinfo.DissectJitedFunc` | libbpf/src/bpf_prog_linfo.c:22-86 | Succeeds exactly if the records can be cut so that each function starts at the first record with its address and, in all but the last, addresses rise and the records lie within the function's address and length; the indices and counts are then that cut. |
| `LineInfo.SameCut` | libbpf/src/bpf_prog_linfo.c:44-69 | The test of the source, by wrapped distances, and the one by addresses say the same of every cut. |
| `LineInfo.SpanIsWithin` | libbpf/src/bpf_prog_linfo.c:57-58 | The length test on the last record of a function says that it lies within the function, as long as addresses rise. |
| `LineInfo.OneDissection` | libbpf/src/bpf_prog_linfo.c:22-86 | There is at most one such cut. |
| `LineInfo.CountsSum` | libbpf/src/bpf_prog_linfo.c:60-81 | The counts are positive, and those of the first functions add up to the next one's start, all of them to the number of records. |
| `LineInfo.IndexGrows` | libbpf/src/bpf_prog_linfo.c:44-69 | Start indices strictly increase from 0. |
| `LineInfo.CutOrGoOn` | libbpf/src/bpf_prog_linfo.c:44-75 | Each record starts the next function, continues this one, or proves that no cut exists. |
| `LineInfo.ProgLinfo.LfindAddrFunc` | libbpf/src/bpf_prog_linfo.c:180-215 | Returns the last record of the longest run of the function's window that is not above the address; nothing exactly if there is no such record. |
| `LineInfo.LastIsPredecessor` | libbpf/src/bpf_prog_linfo.c:180-215 | In every function but the last that is the predecessor: the records at or below the address are those up to it. |
| `LineInfo.ProgLinfo.Lfind` | libbpf/src/bpf_prog_linfo.c:218-246 | The same by instruction offset over all records. |
| `XskRing.ProducerRing.Run` | libbpf/src/xsk.h:85-136 | Any order of steps of application and kernel: the kernel receives exactly the submitted entries in order, and never lags by more than the ring size. |
| `XskRing.ConsumerRing.Run` | libbpf/src/xsk.h:104-164 | The same in the other direction. |
| `XskRing.ProducerRing.NbFree` | libbpf/src/xsk.h:85-102 | The wrapped counters give the true number of slots known free, and the other side is looked at when that is not enough. |
| `XskRing.ProducerRing.Reserve` | libbpf/src/xsk.h:116-126 | Grants all or nothing, exactly when there is room; never a slot that the kernel has still to read. |
| `XskRing.ProducerRing.Write` | libbpf/src/xsk.h:48-70 | Writing through a granted index changes that entry only, as slots of live positions differ. |
| `XskRing.ProducerRing.Submit` | libbpf/src/xsk.h:128-136 | Makes the first reserved entries visible, unchanged and in order. |
| `XskRing.ConsumerRing.NbAvail` | libbpf/src/xsk.h:104-114 | The true number of entries available, capped; the other side is looked at only when none are known. |
| `XskRing.ConsumerRing.Peek` | libbpf/src/xsk.h:138-154 | Hands out the entries that follow those handed out before: as many as wanted or known available, whichever is less, and the kernel is asked for more only when none are known. |
| `XskRing.ConsumerRing.Read` | libbpf/src/xsk.h:56-78 | An entry in the application's hands is the one the kernel produced there. |
| `XskRing.ConsumerRing.Release` | libbpf/src/xsk.h:156-164 | Gives back the oldest entries; the kernel cannot overwrite the others. |
| `XskRing.WrappedIndexPicksSlot` | libbpf/src/xsk.h:48-70 | A wrapped counter, masked, picks the slot of the true position, for sizes that are powers of two. |
| `XskRing.SlotsDiffer` | libbpf/src/xsk.h:48-70 | Positions less than one ring size apart use different slots. |
| `HashTable.Table.Insert` | libbpf/src/hashmap.c:142-192 | Per strategy: when an existing value is kept, replaced or refused, when one is added in front, and that no other key is affected; size counts entries. |
| `HashTable.Table.Delete` | libbpf/src/hashmap.c:208-228 | Removes the value that a search finds, and no other; false exactly if there is none. |
| `HashTable.Table.Find` | libbpf/src/hashmap.c:194-206 | The first value of the key, or nothing exactly if it has none. |
| `HashTable.Table.FindEntry` | libbpf/src/hashmap.c:118-140 | The first entry of the chain with the key, and the pointer that leads to it. |
| `HashTable.Table.ForEachKeyEntry` | libbpf/src/hashmap.h:162-168 | Visits exactly the values stored for the key. |
| `HashTable.Table.LookupComplete` | libbpf/src/hashmap.h:162-168 | ... which are all values that any entry of the table has for the key. |
| `HashTable.Table.Grow` | libbpf/src/hashmap.c:88-116 | In place: every entry is in the chain of its key under the new size, none is lost, the capacity is a power of two with room for one more; without memory nothing changes. |
| `HashTable.Table.Unlink` | libbpf/src/hashmap.c:25-30 | Rewiring one pointer takes exactly that entry out of its chain and leaves all chains linked and unshared. |
| `HashTable.Table.PushEntry` | libbpf/src/hashmap.c:18-23 | A new entry is in front of the chain of its key, all others are where they were. |
| `HashModel.HashBitsInRange` | libbpf/src/hashmap.h:20-24 | The bucket number is below the capacity. |
| `HashModel.KeyValuesComplete` | libbpf/src/hashmap.h:162-168 | In a table where every entry is in its chain, one chain holds all values of a key. |
| `HashModel.RehashPlaced` | libbpf/src/hashmap.c:88-116 | Rehashing puts every entry in the chain of its key. |
| `HashModel.RehashKeepsEntries` | libbpf/src/hashmap.c:104-110 | Rehashing keeps the multiset of entries. |
| `HashModel.RehashReverses` | libbpf/src/hashmap.c:104-110 | Rehashing turns round the order of the values of each key. |
| `HashModel.GrowthForgetsRecency` | libbpf/src/hashmap.c:104-110 | After one growth a search finds the value it found before if and only if the first and the last value of the key are equal. |
| `HashHistory.Run` | libbpf/src/hashmap.c:142-228 | Any operations on a new table leave every key with the values of the recorded history, in its order: insertions in front, removals from the front, and growth, which comes exactly before an entry for which there is no room, turning the values round. |
| `HashHistory.FindsNewestExactly` | libbpf/src/hashmap.h:76-79 | After any operations a search finds the value inserted last if and only if the table has grown an even number of times since that insertion, or the first and the last value of the key are equal. |
| `HashHistory.CapacityTells` | libbpf/src/hashmap.h:76-79 | The condition can be read from the capacity: what counts is whether it has doubled an even number of times since right after that insertion. |
| `HashHistory.GrowthsFromBits` | libbpf/src/hashmap.c:88-116 | Once a table has buckets, each growth doubles them once, so the growths since any moment are given by the capacities then and now. |
| `HashHistory.NewestAtAnEnd` | libbpf/src/hashmap.h:76-79 | The value inserted last is always at one end of the chain, and which end is decided by the number of growths since. |
| `HashHistory.ChainIsValley` | libbpf/src/hashmap.c:88-116 | Along every chain values get older and then newer again; those before the turn have seen an even number of growths, those behind it an odd one. |
| `HashHistory.WithoutAppends` | libbpf/src/hashmap.h:65-80 | Where nothing is appended no key has two values, and a search finds the value inserted last. |
| `HashHistory.FourAppends` | libbpf/src/hashmap.h:76-79 | Four appends to a new table, the first two for one key: a search for the key then finds the value appended first. |
| `HashModel.MapUpdate` | libbpf/src/hashmap.c:142-192 | Without the append strategy keys stay unique, and insertion is map update. |
| `TcpEvents.Probes.Run` | release/bcc/tcpreq.c:96-232 | Any steps in any order, also with full tables: every connection's events start with an accept, receive, send and close never repeat back to back, only an accept follows a close, and times do not go back. |
| `TcpEvents.Emitted` | release/bcc/tcpreq.c:63-94 | An event that may come next keeps all traces legal and the connection table in step with them. |
| `TcpEvents.Probes.CheckState` | release/bcc/tcpreq.c:81-94 | Sends an event exactly for a known connection whose state differs, and then records the new state. |
| `TcpEvents.Probes.KretprobeMoveAddrToUser` | release/bcc/tcpreq.c:114-149 | Sends an accept exactly if the process was seen entering it, whether or not the table has room. |
| `TcpEvents.Probes.KprobeTcpClose` | release/bcc/tcpreq.c:208-232 | A close of a watched process ends with the connection unknown. |
| `TcpReports.Collector.BufferEvent` | src/collector/tcpreq.go:237-271 | Appends one new report and keeps, for every connection, its reports in step with its events; after it no batch handed out before is whole any more. |
| `TcpReports.Collector.ExportData` | src/collector/tcpreq.go:191-209 | Hands out the reports that wait as a slice of the buffer, which starts again at the front of the same array. |
| `TcpReports.Collector.ContentsRight` | src/collector/tcpreq.go:191-271 | Read at any later time, a batch holds what it held when it was handed out if and only if no event has been received since. |
| `TcpReports.Run` | src/collector/tcpreq.go:191-271 | The same after events, exports and late readings in any order; and for each connection the reports made name its events, the kind of the one before, and the time since. |
| `TcpReports.DeliverPromptly` | src/collector/tcpreq.go:191-271 | If each batch is read before the next event comes, what has been read and what still waits are all reports, once and in order. |
| `TcpReports.ReadLate` | src/collector/tcpreq.go:203-207 | Two events, each handed out by itself and read late: the report of the first is lost and that of the second is delivered twice. |
| `TcpReports.DurationsAddUp` | src/collector/tcpreq.go:263-267 | The durations of a connection add up to the time between its first and last event. |
| `TcpReports.DurationsAddUpWrapped` | src/collector/tcpreq.go:263-267 | For times in any order they do so modulo 2^64. |
| `TcpReports.LegalReports` | src/collector/tcpreq.go:263-264 | For legal traces no report but an accept comes first, after a close, or after one of its own kind. |
| `TcpReports.ReportsNameEvents` | src/collector/tcpreq.go:263-285 | Reports say recv, send, accept and close exactly for events of kind 1, 2, 3 and 4, for the event itself and for the one before, and unknown for any other kind. |

## Left out

- Dedup.Deduper.Run: with forward declarations resolved, unfoldings are promised, up to those declarations, for graphs without an ambiguous one, and this condition is sufficient, not necessary: whether an ambiguous declaration joins different structs depends on the order of all checks, and only the single step has an exact condition (`Contents.MergeKeepsShapesExactly`). Without the condition names, kinds and the contents of all but structs and unions are still kept. Acyclicity, sharing and renumbering are stated for both settings.
- Dedup.Deduper.Candidates: the table of candidates is a list searched in arbitrary order, since the passes rely on no order; that the real table finds every entry of a key is `HashTable.Table.LookupComplete`. The option that forces collisions is a choice of hash function and is not a separate case.
- DedupByText.DedupAll: the maps for the type passes are set up after the string pass and not before it, which makes no difference to them, as names play no part there. The byte layout of records is only modelled as far as compaction reads it (`TypeSection`), and the string references of `.BTF.ext` function information and field relocations are not visited by the code either.
- TypeSection.Section.CompactTypes: assumes that every record's size is known, which the parser of the section has checked before; the error return for unknown kinds cannot be reached then. Little-endian byte order is taken for the header word.
- StringDedup.BtfData.DedupStrings: assumes the section that the parser accepts, beginning and ending with a zero byte; sorting and searching are stand-ins for the C library's, of which only the result is used.
- DumpOrder.Dumper.OrderType: assumes that among the types it walks every cycle goes through a struct or union that is defined on the way; for a cycle of typedefs or pointers alone the code itself does not return. Emission of the queue, forward declarations made during it, name conflicts and the layout of dumped structs are not modelled.
- DeclPrinter.Printer.EmitTypeDecl: a specifier is one token, also where the code prints the body of an unnamed struct, union or enum in its place; what the printer does after it ran out of memory inside a chain is not stated, except that the stack is restored.
- Declarator.PrintThenParse: the grammar is that of declarators with one specifier and qualifiers; initializers, static and qualifiers inside array brackets, and old-style parameter lists do not occur in the output.
- CoreMatch.Spec.Parse: the access string has no minus sign, as the code compares member indices as signed numbers and would read outside the members; what the C library makes of the digits is a function here, without its limit to 32 bits.
- CoreMatch.Spec.Match: the compatibility test, the size of a type and the text of names are parameters about which only their range is assumed, so the result holds for whatever they answer. The search for candidate types by name is not modelled.
- CoreField.CalcFieldRelo: bit-fields of declared types of 1, 2, 4 or 8 bytes; for a type that is no integer or enum the code takes the sign from the word that follows the record in memory, which is a parameter; the patching of the instruction afterwards is left out.
- Linking.Program.Relocate: relocations inside the program and apart from each other; collecting them from ELF sections, and the order in which programs are processed, are not modelled.
- PerfRing.PerfPage.ReadSimple: positions do not wrap at 2^64 bytes, and the kernel leaves the bytes between tail and head alone, as its protocol says.
- LineInfo.ProgLinfo.DissectJitedFunc: records are their first field, which is all that the index reads; copying the arrays from the kernel is not modelled. A function at address 0 whose last record is at 2^64 - 1 passes the length test of the code, because the distance wraps; the contract says so.
- HashTable.Table.Grow: gives up with -ENOMEM at 2^61 buckets, which no memory can hold; clearing and freeing a table are not modelled.
- HashModel.HashBits: with 0 bits, that is for a table without buckets, it is 0, where the code shifts a 64-bit value by 64, which C leaves undefined; every search in an empty table does so, but does not use the result.
- XskRing.ProducerRing.Run: steps are sequentially consistent and one at a time; memory barriers, wake-up flags and address arithmetic of the packet memory are left out.
- TcpReports.Run: receiving, handing out and reading a batch are single steps, as if reading took the collector's lock, which it does not; the channel's capacity, the other tags of a report and the growth policy of slices are left out.
- TcpEvents.Probes.Run: each probe is one atomic step and the connection is what the socket holds at that step; loss and reordering between kernel and user space, and pid filtering by the collector, are left out.
- Everything that is a system call, file, ELF or netlink access: foreign code.
