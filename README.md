# svd-yaml-compare, modelled in Dafny

`svd-yaml-compare` reads the SVD register descriptions of many microcontrollers and groups
peripherals whose register layouts are the same. For each peripheral that has registers, it:

- normalises the register tree, unless descriptions are kept: every description and display name
  is dropped, and the top-level registers and clusters, the fields of each register and the values
  of each enumerated-value group are stable-sorted by offset or value;
- serialises the register list to YAML (the *structural* text);
- erases the enumerated values and write constraints of every field on a copy, and serialises that
  copy too (the *skeleton* text);
- hashes both texts with md5 and builds a digest id from the structural hash and either the
  skeleton hash or, in show-name mode, the device and peripheral names;
- stores the structural text once as `<group>/<id>.yaml`;
- outside show-name mode, appends a reference line `<id> <peripheral> <device>` to
  `<group>/peripherals.txt`.

A closing pass (`sort_txts`) then rewrites every group log. It sorts the lines and, in
compare-percent mode, adds one similarity line for every unordered pair of distinct ids in the
group.

The model has these modules:

- `Svd` holds the register tree as datatypes.
- `Normalize` and `Skeleton` hold the two tree rewrites of `clean_*` and `clear_fields`.
  - The `Normalized*` and `Erased*` functions say what each rewrite produces.
  - The `Clean*` and `Clear*` methods are the source's loops, each proved to produce that result.
- `NormalizeProperties` and the lemmas in `Skeleton` prove what the rewrites guarantee.
- `Sorting` is a reference stable sort (`sort_by_key`) with its properties.
- `Strings` covers the string order, `sort`, `join`, `split(' ').next()` and `BufRead::lines`.
- `Naming` builds the digest id, the file names and the reference line.
- `Store` is the output directory:
  - a class `OutputDir` whose `files` map is what the filesystem holds;
  - the per-peripheral and per-device steps as methods, each proved equal to a pure step function;
  - the closing pass.
- `Report` is the report of one group.
- `StoreProperties` holds the run-level properties: write-once, append-only, show-name mode, and
  every log line resolving to a stored file.
- `Pipeline.Run` is a whole run.

The serialiser, the hash and the similarity ratio are outside the model. They are the three
functions of the `Foreign` value that every step receives. Any md5 hex digest there is 32
lower-case hex digits, so the `[..8]` slices are always defined. The switches that reach the core
are the booleans in `Flags`.

Choices where the code's behaviour may be unexpected; the model follows the code in each:

- The children of a cluster are cleaned but not sorted (src/main.rs:231-237).
  `NormalizeProperties.ClusterChildrenStayUnsorted` exhibits a cluster whose children stay out of
  offset order.
- `sort_txts` lists the output root with `read_dir(..).unwrap()` (src/main.rs:112). The root is
  deleted at the start of a run and only created when a first file is written, so a run of devices
  without any registers panics there. The model returns `Failure(NoOutputRoot)` in that case.
- A compared pair whose `.yaml` file is missing panics at `unwrap` (src/main.rs:147-155). The model
  returns `Failure(MissingPayload(path))`, with the logs rewritten before that point kept
  rewritten and the others as they were. `StoreProperties.RunFindsPayloads` shows this cannot
  happen when device and peripheral names hold no line breaks.
- `Option<u64>` sorts `None` first, so an enumerated value without a value gets key -1.

## Model

| member | source | states |
|---|---|---|
| Svd.RcKey | src/main.rs:214-217 | definition of the top-level sort key, a node's address offset; `NormalizedTopLevelOrder` sorts by it |
| Svd.FieldKey | src/main.rs:243 | definition of the field sort key, the bit offset; `NormalizedFieldsOrder` sorts by it |
| Svd.EnumValueKey | src/main.rs:248 | a value without a number gets a key below every number, and a value with one gets that number, so the key order is the order of `Option<u64>` |
| Normalize.CleanValues | src/main.rs:247-252 | sorts the values of one enumerated-value group by value and drops each value's description; the result equals `NormalizedValues` |
| Normalize.CleanField | src/main.rs:244-252 | drops the field's description and cleans each of its enumerated-value groups; the result equals `NormalizedField` |
| Normalize.CleanRegister | src/main.rs:238-255 | drops description and display name, stable-sorts the fields by bit offset, cleans each field; the result equals `NormalizedRegister` |
| Normalize.CleanRegisterCluster | src/main.rs:225-230 | dispatches to the register or cluster rewrite; the result equals `NormalizedNode` |
| Normalize.CleanCluster | src/main.rs:231-237 | drops the cluster's description and cleans every child in place without reordering; the result equals `NormalizedCluster` |
| Normalize.CleanPeripheral | src/main.rs:207-223 | drops description, display name and interrupt descriptions, stable-sorts the top-level list by address offset, cleans each node; the result equals `NormalizedPeripheral` |
| Normalize.CleanDevice | src/main.rs:201-205 | cleans every peripheral of the device; the result equals `NormalizedDevice` |
| Normalize.NormalizedValues | src/main.rs:247-252 | definition of a cleaned value group; `CleanValues` is proved equal to it, and its order and idempotence are proved in `NormalizedValuesOrder` and `NormalizedValuesIdempotent` |
| Normalize.NormalizedValue | src/main.rs:249-251 | the value loses its description and keeps its name, value and default flag |
| Normalize.NormalizedField | src/main.rs:244-246 | the field loses its description, keeps its identity and keeps the number of enumerated-value groups |
| Normalize.NormalizedRegister | src/main.rs:238-255 | definition of a cleaned register; `CleanRegister` is proved equal to it, and its properties are proved in `NormalizedFieldsOrder`, `NormalizedRegisterOrdered` and `NormalizedRegisterIdempotent` |
| Normalize.NormalizedCluster | src/main.rs:231-237 | definition of a cleaned cluster; `CleanCluster` is proved equal to it, and `NormalizedClusterKeepsOrder` and `ClusterChildrenStayUnsorted` prove its children keep their order |
| Normalize.NormalizedNode | src/main.rs:225-230 | a cleaned node keeps its kind, name, address offset and element count |
| Normalize.NormalizedInterrupt | src/main.rs:210-212 | an interrupt loses its description and keeps name and number |
| Normalize.NormalizedPeripheral | src/main.rs:207-213 | name, group name and base address are kept; the register list is present exactly when it was |
| Normalize.NormalizedDevice | src/main.rs:201-205 | the device keeps its name and number of peripherals |
| NormalizeProperties.NormalizedNodeStripped | src/main.rs:225-255 | no description or display name is left anywhere below a cleaned node, including inside nested clusters |
| NormalizeProperties.NormalizedPeripheralStripped | src/main.rs:207-255 | no description or display name is left anywhere in a cleaned peripheral, down to the enumerated values |
| NormalizeProperties.NormalizedValuesOrder | src/main.rs:248 | the values are sorted by value, are a permutation of the input (by identity), and values with equal keys keep their input order |
| NormalizeProperties.NormalizedFieldsOrder | src/main.rs:243 | the fields are sorted by bit offset, are a permutation of the input, and keep input order among equal offsets |
| NormalizeProperties.NormalizedTopLevelOrder | src/main.rs:214-217 | the top-level registers and clusters are sorted by address offset, are a permutation of the input, and keep input order among equal offsets |
| NormalizeProperties.NormalizedClusterKeepsOrder | src/main.rs:234-236 | a cluster's children keep their identities in the same order |
| NormalizeProperties.ClusterChildrenStayUnsorted | src/main.rs:231-237 | a concrete cluster with children out of offset order is still out of order after cleaning |
| NormalizeProperties.NormalizedRegisterOrdered | src/main.rs:242-254 | in a cleaned register the fields are sorted by bit offset and every value group is sorted by value |
| NormalizeProperties.NormalizedNodeOrdered | src/main.rs:225-237 | fields and values are sorted in every register at every depth below a cleaned node |
| NormalizeProperties.NormalizedPeripheralOrdered | src/main.rs:213-222 | a cleaned peripheral's top level is sorted by offset and every node below it is ordered |
| NormalizeProperties.NormalizedValuesIdempotent | src/main.rs:247-252 | cleaning a value group twice is cleaning it once |
| NormalizeProperties.NormalizedFieldIdempotent | src/main.rs:244-252 | cleaning a field twice is cleaning it once |
| NormalizeProperties.NormalizedRegisterIdempotent | src/main.rs:238-255 | cleaning a register twice is cleaning it once |
| NormalizeProperties.NormalizedNodeIdempotent | src/main.rs:225-237 | cleaning a node twice is cleaning it once |
| NormalizeProperties.NormalizedPeripheralIdempotent | src/main.rs:207-223 | cleaning a peripheral twice is cleaning it once |
| Skeleton.ClearRegister | src/main.rs:192-197 | empties each field's enumerated values and clears its write constraint; the result equals `ErasedRegister` |
| Skeleton.ClearRegisterCluster | src/main.rs:188-197 | erases a register, or every register below a cluster; the result equals `ErasedNode` |
| Skeleton.ClearCluster | src/main.rs:188 | reaches every register nested in a cluster, as `all_registers_mut` does; the result equals `ErasedCluster` |
| Skeleton.ClearFields | src/main.rs:186-198 | erases every register of the peripheral; the result equals `ErasedPeripheral` |
| Skeleton.ErasedField | src/main.rs:194-195 | an erased field has no enumerated values and no write constraint |
| Skeleton.ErasedRegister | src/main.rs:192-197 | definition of an erased register; `ClearRegister` is proved equal to it, and its properties are proved in `ErasedNodeLayout` and `ErasedNodeUnique` |
| Skeleton.ErasedCluster | src/main.rs:188 | definition of an erased cluster, reaching every nested register; `ClearCluster` is proved equal to it |
| Skeleton.ErasedNode | src/main.rs:188-197 | definition of an erased node; `ClearRegisterCluster` is proved equal to it, and its properties are proved in `ErasedNodeLayout`, `ErasedNodeUnique` and `SameNodeLayoutErased` |
| Skeleton.ErasedPeripheral | src/main.rs:186-198 | the register list is present exactly when it was |
| Skeleton.ErasedNodeLayout | src/main.rs:188-197 | below a node, erasing changes only enumerated values and write constraints of fields, and leaves none of them |
| Skeleton.ErasedPeripheralLayout | src/main.rs:186-198 | the erased peripheral has the original's layout and no enumerated data anywhere |
| Skeleton.ErasedNodeUnique | src/main.rs:188-197 | a node with the same layout and no enumerated data is the erased node |
| Skeleton.ErasedPeripheralUnique | src/main.rs:186-198 | the erased peripheral is the only peripheral with the original's layout and no enumerated data, so the eraser touches nothing else |
| Skeleton.SameNodeLayoutReflexive | src/main.rs:188-197 | every node has its own layout |
| Skeleton.ErasedPeripheralIdempotent | src/main.rs:186-198 | erasing twice is erasing once |
| Skeleton.SameNodeLayoutErased | src/main.rs:188-197 | nodes with the same layout erase to the same node |
| Skeleton.SameLayoutSameSkeleton | src/main.rs:65-71 | peripherals that differ only in enumerated values and write constraints have the same skeleton, so the same skeleton text |
| Sorting.SortByKey | src/main.rs:214-217 | definition of the reference stable sort (also used at lines 243 and 248); it is proved sorted, a permutation, stable and the only such result in `SortByKeySorted`, `SortByKeyPermutation`, `SortByKeyStable` and `SortByKeyUnique` |
| Sorting.MapSeq | src/main.rs:219-221 | a loop over a list rewrites element i as f of element i and keeps the length |
| Sorting.FilterKeyElements | src/main.rs:214-217 | the elements picked for a key have that key and come from the input |
| Sorting.InsertPermutation | src/main.rs:214-217 | the insertion step of the reference sort adds exactly the inserted element |
| Sorting.InsertSorted | src/main.rs:214-217 | inserting into a sorted sequence keeps it sorted |
| Sorting.InsertFilter | src/main.rs:214-217 | inserting keeps the input order among elements of equal key, with the new one last |
| Sorting.InsertAfterAll | src/main.rs:214-217 | an element whose key is not below any key goes at the end |
| Sorting.SortByKeySorted | src/main.rs:214-217 | `sort_by_key` sorts by the key |
| Sorting.SortByKeyPermutation | src/main.rs:214-217 | `sort_by_key` is a permutation of its input |
| Sorting.SortByKeyStable | src/main.rs:214-217 | the elements of each key keep their input order under `sort_by_key` |
| Sorting.SortByKeyOfSorted | src/main.rs:214-217 | an already sorted sequence is left as it is |
| Sorting.SortedByFilterUnique | src/main.rs:214-217 | two sorted sequences with the same elements per key in the same order are equal |
| Sorting.SortByKeyUnique | src/main.rs:214-217 | any sorted sequence that keeps each key's elements in input order is the stable sort's result |
| Sorting.FilterKeyAppend | src/main.rs:214-217 | selecting a key from a concatenation selects from each part |
| Sorting.MapSeqSorted | src/main.rs:219-221 | rewriting elements without changing their keys keeps a sorted list sorted |
| Sorting.MapSeqFilterKey | src/main.rs:219-221 | rewriting without changing keys commutes with selecting by key |
| Sorting.MapSeqAppend | src/main.rs:141-163 | mapping a concatenation maps each part |
| Sorting.MapSeqRemove | src/main.rs:141-163 | removing one element before mapping removes its image once |
| Sorting.MapSeqPermutation | src/main.rs:141-163 | mapping permutations gives permutations |
| Sorting.MapSeqAbsorb | src/main.rs:219-221 | mapping through g after f is mapping through g when g ignores what f changes |
| Sorting.SortThenMapOrder | src/main.rs:213-222 | sorting then cleaning each element gives a list that is sorted, a permutation of the input by identity, and stable per key |
| Sorting.SortThenMapIdempotent | src/main.rs:213-222 | sorting then cleaning an already sorted and cleaned list changes nothing |
| Strings.StartsWith | src/main.rs:51 | definition of `str::starts_with`; used by `Store.DeviceStep` and stated of `FirstToken` |
| Strings.LexLess | src/main.rs:137 | definition of the string order used by `<` and by the sorts at lines 123 and 164; it is proved a strict total order in `LexLessIrreflexive`, `LexLessTransitive`, `LexLessTotal` and `LexLessAsymmetric` |
| Strings.LexLessIrreflexive | src/main.rs:137 | no string is below itself |
| Strings.LexLessTransitive | src/main.rs:137 | string order is transitive |
| Strings.LexLessTotal | src/main.rs:137 | two different strings are ordered one way or the other |
| Strings.LexLessAsymmetric | src/main.rs:137 | string order is asymmetric |
| Strings.SortStrings | src/main.rs:123 | `sort` on strings returns a permutation of its input |
| Strings.InsertString | src/main.rs:123 | the insertion step adds exactly the inserted string |
| Strings.InsertStringSorted | src/main.rs:123 | inserting into a sorted list keeps it sorted |
| Strings.SortStringsSorted | src/main.rs:123 | `sort` returns a sorted list |
| Strings.SortedUnique | src/main.rs:164 | two sorted lists with the same elements are equal |
| Strings.SortStringsCanonical | src/main.rs:164 | the sorted list depends only on the multiset of strings, so the order in which lines were pushed does not matter |
| Strings.Join | src/main.rs:165 | definition of `join`: the elements with the separator between consecutive ones; used by `Report.ExpectedReport` |
| Strings.FirstToken | src/main.rs:127 | `split(' ').next()` is a prefix of the line without spaces, followed by a space or the end of the line |
| Strings.ReadLines | src/main.rs:119-122 | definition of `BufRead::lines`; its read-back properties are proved in `LinesFromConcat`, `LinesFromOneLine` and `ReadLinesAppend` |
| Strings.LinesFromConcat | src/main.rs:119-122 | a text ending in a newline is read as the same lines whatever follows it |
| Strings.LinesFromOneLine | src/main.rs:119-122 | a line without newlines, then a newline, reads as one line with any final carriage return dropped |
| Strings.ReadLinesAppend | src/main.rs:119-122 | appending a plain line and a newline to a log adds exactly that line to what `lines()` gives back |
| Naming.DigestId | src/main.rs:74-78 | the id is the first 8 digits of the structural digest, `_`, then the skeleton digest's first 8 digits, or in show-name mode the device name, `_` and the peripheral name |
| Naming.DigestIdAlphabet | src/main.rs:77 | outside show-name mode the id is hex digits and an underscore, so it holds no space and no line break |
| Naming.DigestIdInjective | src/main.rs:77 | outside show-name mode two ids are equal exactly when both digest prefixes are equal |
| Naming.YamlName | src/main.rs:79 | the content file name is the id followed by `.yaml`, and is never the log's name |
| Naming.ReferLine | src/main.rs:80 | definition of the reference line; `ReferText` states it is that text plus one newline, and `ReferTextFirstToken` reads its id back |
| Naming.GroupKey | src/main.rs:82 | the group directory is the group name, or the peripheral's name without one |
| Naming.ReferText | src/main.rs:80 | the reference line is this text followed by one newline |
| Naming.ReferTextFirstToken | src/main.rs:80 | the first token of a reference line read back is its id, when the id has no space |
| Store.Put | src/main.rs:88-93 | the payload is written at the path only when no file is there; every other file is unchanged |
| Store.Append | src/main.rs:94-103 | the text is added at the end of the file, which is created empty when absent; every other file is unchanged |
| Store.PutWriteOnce | src/main.rs:88-93 | a second write to the same path, whatever its payload, leaves the first one |
| Store.StructuralText | src/main.rs:70 | definition: the serialisation of the register list as the loop sees it; `PeripheralStep` states it is what a new content file holds |
| Store.SkeletonText | src/main.rs:65-71 | definition: the serialisation of the erased copy's register list; `Skeleton.SameLayoutSameSkeleton` proves peripherals of the same layout get the same one |
| Store.PeripheralId | src/main.rs:72-78 | definition: the digest id of the two md5 digests; its shape is stated by `Naming.DigestId` |
| Store.YamlPath | src/main.rs:79-86 | definition: the content file `<group>/<id>.yaml`; `PeripheralStep` states it is never the log |
| Store.LogPath | src/main.rs:82-87 | definition: the group's `peripherals.txt`; `PeripheralStep` and `LogGainsLine` state what it gains |
| Store.PeripheralStep | src/main.rs:65-103 | without registers nothing changes; otherwise the structural text is stored under the id unless that file exists, the log gains the reference line exactly outside show-name mode, and nothing else changes |
| Store.PeripheralsStep | src/main.rs:61-105 | definition of the loop over a device's peripherals; `OutputDir.AddDevice`'s loop is proved to follow it, and its properties are proved in `PeripheralsStepGrows`, `ShowNameLeavesLogsOf`, `PeripheralsStepResolves`, `NoRegistersNoStep` and `SomeRegistersSomeFile` |
| Store.Prepared | src/main.rs:57-59 | definition: the device cleaned unless descriptions are kept; `PreparedNames` proves the names are kept |
| Store.DevicesStep | src/main.rs:36-107 | definition of the loop over devices; `Pipeline.Run`'s loop is proved to follow it, and its properties are proved in `DevicesStepGrows`, `ShowNameLeavesLogs`, `DevicesStepResolves`, `NothingWritten` and `SomethingWritten` |
| Store.DeviceStep | src/main.rs:51-53 | a device whose name starts with `STM32MP1` changes nothing |
| Store.OutputDir.constructor | src/main.rs:33-35 | a run starts from an empty output root |
| Store.OutputDir.AddPeripheral | src/main.rs:65-103 | the body of the peripheral loop; the new files are `PeripheralStep` of the old ones |
| Store.OutputDir.AddDevice | src/main.rs:51-105 | skips excluded devices, cleans the device unless descriptions are kept, adds its peripherals in order; the new files are `DeviceStep` of the old ones |
| Store.OutputDir.SortTxts | src/main.rs:111-176 | fails for lack of an output root exactly when nothing was written, changing nothing; otherwise the only possible failure is a missing payload, and it succeeds exactly when every compared file exists, and then every log holds its report and nothing else changes; on a missing path, that path was absent, the logs handled before hold their reports and the failing group's log and all other files are as they were |
| Store.RewriteStep | src/main.rs:118-173 | rewriting one more log as its report keeps every other file as it should be |
| Store.RewriteLogs | src/main.rs:112-175 | the loop over groups with a log succeeds exactly when every compared file exists, then leaves every log as its report and every other file as it was; a failure names an absent content file and leaves the logs handled before it rewritten and the failing group's log untouched |
| Report.DigestSet | src/main.rs:124-131 | definition of the digest set; `CollectDigests` is proved equal to it |
| Report.PairSet | src/main.rs:132-140 | definition of the pair set; `EnumeratePairs` is proved to build exactly it, and `PairsFromAll` relates it to ordering every distinct pair |
| Report.CompareLine | src/main.rs:141-162 | definition of one comparison line; `CompareAll` builds one per pair |
| Report.ExpectedReport | src/main.rs:119-165 | definition of a group's rewritten log; `GroupReport` is proved to produce it and `RewriteLogs` to write it for every log |
| Report.Ordered | src/main.rs:137 | the pair is the two ids in some order, and the smaller first when they differ |
| Report.CollectDigests | src/main.rs:124-131 | the set of first tokens of the lines, empty unless compare-percent is on and show-name is off |
| Report.EnumeratePairs | src/main.rs:132-140 | exactly the pairs (a, b) with a < b of ids in the set, never in both orders |
| Report.PairsFromAll | src/main.rs:134-139 | ordering every pair of distinct ids gives exactly the pairs with the smaller first |
| Report.Enumeration | src/main.rs:141 | iterating a set visits each element once |
| Report.DistinctCount | src/main.rs:141 | in a list without repeats every element occurs once |
| Report.DistinctPermutation | src/main.rs:141 | two repeat-free listings of the same set are permutations of each other |
| Report.CompareAll | src/main.rs:141-163 | one comparison line per pair, read from its two files; succeeds exactly when every pair's files exist, else names a missing one |
| Report.GroupReport | src/main.rs:119-165 | the report is the sorted lines joined by newlines, a newline, and the sorted comparison lines of all pairs joined by newlines; it fails exactly when a compared file is missing |
| StoreProperties.GrowsTransitive | src/main.rs:88-103 | content files that stay and logs that only grow compose over steps |
| StoreProperties.PeripheralStepGrows | src/main.rs:88-103 | one peripheral removes no file, changes no content file, and only extends logs at their end |
| StoreProperties.PeripheralsStepGrows | src/main.rs:61-105 | the same over all the peripherals of a device |
| StoreProperties.DevicesStepGrows | src/main.rs:36-107 | the same over a whole run of devices |
| StoreProperties.ShowNameLeavesLogs | src/main.rs:94 | in show-name mode a run creates and extends no log |
| StoreProperties.ShowNameLeavesLogsOf | src/main.rs:94 | in show-name mode the peripherals of a device create and extend no log |
| StoreProperties.LogGainsLine | src/main.rs:94-103 | outside show-name mode a peripheral adds exactly its reference line to the lines its group's log reads back as |
| StoreProperties.ReferTextPlain | src/main.rs:80 | a reference line made from names without line breaks reads back as itself |
| StoreProperties.PeripheralStepResolves | src/main.rs:79-103 | after a peripheral, every log line still names by its first token a content file of its group that exists |
| StoreProperties.PeripheralsStepResolves | src/main.rs:61-105 | the same over the peripherals of a device |
| StoreProperties.PreparedNames | src/main.rs:57-59 | cleaning keeps the device's name and the names of its peripherals |
| StoreProperties.DevicesStepResolves | src/main.rs:36-107 | the same over a run of devices with plain names |
| StoreProperties.ResolvedPayloads | src/main.rs:141-155 | when every log line resolves, every pair a report compares has both files |
| StoreProperties.RunFindsPayloads | src/main.rs:141-155 | a run whose names have no line breaks never meets a missing file in the closing pass |
| StoreProperties.PeripheralStepRepeat | src/main.rs:88-93 | repeating a peripheral's step leaves every content file as it was, and in show-name mode changes nothing |
| StoreProperties.NothingWritten | src/main.rs:51-69 | a run that reaches no peripheral with registers writes nothing |
| StoreProperties.SomethingWritten | src/main.rs:67-93 | a run that reaches a peripheral with registers leaves some file |
| StoreProperties.PeripheralsNothingWritten | src/main.rs:67-69 | a device without a peripheral with registers writes nothing |
| StoreProperties.NoRegistersNoStep | src/main.rs:67-69 | peripherals without registers write nothing |
| StoreProperties.PeripheralsSomethingWritten | src/main.rs:67-93 | a device with a peripheral with registers leaves some file |
| StoreProperties.SomeRegistersSomeFile | src/main.rs:67-93 | a list holding a peripheral with registers leaves some file |
| Pipeline.Run | src/main.rs:30-109 | a run that writes nothing leaves the output empty and fails for lack of an output root; otherwise the only possible failure is a missing payload, and finalisation succeeds exactly when every compared file exists, always when names have no line breaks, and then every log holds its report; a missing file stops the pass with the logs before it rewritten |

## Left out

- Command-line parsing with `clap` (src/main.rs:9-28, 31): the three switches that reach the core are plain booleans. `origin` only picks the output root and the input extension (src/main.rs:32, 38), which are not modelled.
- File I/O: listing the input directory, reading input files, creating directories, opening, appending and truncating files (src/main.rs:33-44, 83, 95-102, 112-118, 147-155, 166-172, 178-184). The output root is one in-memory map from (group, file name) to text. Input is the list of parsed devices.
- The panics of `.expect` when opening, writing or serialising fails (src/main.rs:42-49, 70-71, 90-92, 100-102, 120, 170-172), which are I/O or foreign failures.
- SVD parsing (src/main.rs:46-49), YAML serialisation (src/main.rs:70-71), md5 (src/main.rs:72-73) and the similarity ratio with its `{:5.1}` formatting (src/main.rs:156-162): foreign code, taken as the functions of `Foreign`.
- The SVD components the pipeline never reads or changes (access, reset values, derived-from, address blocks and so on): the datatypes keep only what is stripped, sorted by, erased, and the identity data.
- The progress output (src/main.rs:55, 62-64).
- The name check in `clear_fields` (src/main.rs:189-191), which has no effect.
- The `pth.is_dir()` test in `sort_txts` (src/main.rs:113), which tests the output root, always a directory there.
- The `flatten` that drops lines that are not valid UTF-8 (src/main.rs:121): texts here are always strings.
- Store.OutputDir.SortTxts, Store.RewriteLogs, Pipeline.Run: group names and ids are taken as single, non-empty path components without a separator, and not `.` or `..`. The source joins them with `PathBuf::push` (src/main.rs:81-87), so a group named `""` or `.` would put its log at the output root itself, a group named `..` would write outside it, and a `/` in a group name or a show-name id would nest the file deeper or make `File::create` fail (src/main.rs:89-90). `sort_txts` only looks at `peripherals.txt` inside the direct entries of the root (src/main.rs:112-118), so it would not rewrite such logs, while the model rewrites every log.
- Store.RewriteLogs: the source visits the groups in `read_dir` order, which is unspecified; the model picks any remaining group at each step, so which logs are rewritten before a failure is left open in the same way.
- Strings.LexLess: compares characters rather than UTF-8 bytes; the two orders agree on valid UTF-8.
- StoreProperties.RunFindsPayloads: requires device and peripheral names without line breaks. A line break inside a name splits a reference line when the log is read back, and then a first token can name a file that does not exist.
