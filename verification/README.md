# Librairii release and qualification tooling, verified

A Dafny model of the parts of this repository that write formats, compare trees,
follow protocols and keep custody: the 7z container writer of the qualification
fixtures, the JSON structural diff, the dispatch-latency bounds and their gate, the
release payload (inventory, copies, portable archive, extraction, fresh outputs), the
Wayland trace recogniser, the monitor's line framing and calls, the undo of recorded
list changes, the nested observation waits, the exact source-folder check, the two
budgeted accessibility traversals, the frozen export scope, the canonical evidence form
and the disposal of an owned disk image.

`dafny verify dfyconfig.toml` checks the whole project.

## How it is organised

| modules | modelled file |
|---|---|
| `SevenZipNumber`, `Utf16`, `SevenZip`, `SevenZipWriter`, `SevenZipExamples` (with `Bytes`, `Sequences`) | `qualification/section-2/synthetic_7z.py` |
| `JsonPointer`, `JsonDiff`, `JsonPatch` (with `Json`, `Strings`) | `qualification/section-2/probe-corpus.py` |
| `Dispatch`, `DispatchReport`, `OrderStatistics` | `qualification/section-16/dispatch.py`, `linux_dispatch.py`, the gate in `native.py` |
| `Payload`, `PayloadFiles`, `FreshOutput`, `PayloadArchive`, `PayloadInstall`, `PayloadRoundTrip` (with `PosixPaths`) | `scripts/native_release/files.py`, `archive.py`, `install.py` |
| `Wayland` | `qualification/section-2/check-wayland.py` |
| `MonitorLines`, `MonitorReplies`, `MonitorCalls` | `qualification/section-2/check-linux-vm.py` |
| `Lineage` | `xtask/check_sources.py` |
| `ObservationWaits` | `qualification/section-2/check-native-macos.py` |
| `SourceTree`, `ExactChildren` | `xtask/check_import_sources.py` |
| `StoryTraversal`, `QuitTraversal` | `qualification/section-16/resource-macos.swift` |
| `Exports` | `scripts/packaged_acceptance/exports.py` |
| `Canonical` | `preservation/generator/main.go` |
| `ImageDisposal` | `scripts/verify-native-relocation.py` |

Code that updates things in place is a class or a loop proved against a function of its
input; what the source promises is then proved of that function. The clock, the socket,
`os.walk`, the disk tool and the accessibility service are oracles: a value nobody has
constrained, a parameter, or a script of everything that happens. CRC-32, SHA-256, the
compressors and JSON decoding are parameters. Times are integer nanoseconds.

A function that a method and its specification share is tied to the source once more, in
numbers, positions and paths of the inputs alone: the lemmas named `...Means`, `...InPlace` and
`...Count`, and the byte layouts of `SevenZipExamples`.

## Where the code does less, or more, than it looks

- The 7z writer accepts a negative last declared size and a name holding U+0000. A reader
  recovers an archive exactly when neither occurs (`SevenZipWriter.ArchiveRoundTrip`); `SevenZipWriter.NegativeSizeAccepted` and
  `SevenZipWriter.NulNameAccepted` are written archives it refuses.
- The JSON diff is empty exactly on equal values and its entries are a complete patch, by
  Python's equality of scalars: it holds 0.0 and -0.0 equal, and NaN unequal to itself
  (`JsonDiff.DiffEmpty`, `JsonPatch.DiffIsPatch`, `JsonPatch.FloatsTheDiffMisjudges`).
- A rename position in the lineage may be negative, and then counts from the end, before
  and after the removal alike. Accepted renames of either sign, repeated or not, commute
  with the removal when no two different positions meet in one slot, in the full list or in
  the shorter one (`Lineage.RenameCommutesWithRemove`), as when all have one sign
  (`Lineage.OneSignApart`) or none expects an identity that an earlier one restored
  (`Lineage.UnchainedApart`). Where two meet, the accepted results can disagree:
  `Lineage.MixedMovesDisagree` and `Lineage.MeetingMovesDisagree`. The renames stand before
  everything removed exactly when nothing is removed or no position is negative.
- An export name is compared only with the names of earlier rows that are not skipped, so
  a skipped row may share its name with a later one. `Exports.Freezable` says so.
- In the preorder search the test `visited < 4096` never ends a pass: whenever something
  is stacked, fewer than 4096 elements have been visited.

## Model

| member | source | states |
|---|---|---|
| SevenZipNumber.Uint64 | qualification/section-2/synthetic_7z.py:16-23 | Refuses exactly the values outside 0 to 2^64-1, and otherwise returns the 7z number of the value. |
| SevenZipNumber.NumberRoundTrip | qualification/section-2/synthetic_7z.py:16-23 | The leading-ones reader recovers every value below 2^64 and leaves exactly the bytes that follow it. |
| SevenZipNumber.NumberPrefixFree | qualification/section-2/synthetic_7z.py:16-23 | Two encodings that start one stream are of the same value: the code is injective and prefix-free. |
| SevenZipNumber.NumberLength | qualification/section-2/synthetic_7z.py:19-23 | The length is k+1 for the least k with value below 2^(7(k+1)), and nine bytes when there is none up to k = 7. |
| SevenZipNumber.NumberIsShortest | qualification/section-2/synthetic_7z.py:19-23 | No byte string that reads as the value is shorter than its encoding. |
| SevenZipNumber.FirstByteBits | qualification/section-2/synthetic_7z.py:21-22 | Tag bits and value bits of the first byte never overlap, so the bitwise or is their sum. |
| Utf16.NamesReadBack | qualification/section-2/synthetic_7z.py:69 | The UTF-16LE name list reads back as the same names exactly when no name holds U+0000 (RFC 2781, sections 2.1 and 2.2). |
| SevenZip.PackInfoReadsBack | qualification/section-2/synthetic_7z.py:58 | Position, size and checksum of the packed stream are recovered, and nothing behind them is consumed. |
| SevenZip.CoderReadsBack | qualification/section-2/synthetic_7z.py:59-61 | Method id and properties are recovered, with the property flag set exactly when there are properties. |
| SevenZip.UnpackInfoReadsBack | qualification/section-2/synthetic_7z.py:62-63 | The folder's coder, unpacked size and checksum are recovered. |
| SevenZip.SubStreamsReadBack | qualification/section-2/synthetic_7z.py:64-68 | Every size is recovered, the omitted last one as the total minus the others, and every checksum, exactly when that last size is not negative. |
| SevenZip.FilesReadBack | qualification/section-2/synthetic_7z.py:69-70 | The file count and the names are recovered exactly when the names hold no U+0000. |
| SevenZip.HeaderReadsBack | qualification/section-2/synthetic_7z.py:58-71 | The whole header reads back, to its last byte, exactly when the contents are readable. |
| SevenZip.SignatureReadsBack | qualification/section-2/synthetic_7z.py:30-32 | Reading the start header finds the packed bytes and the header with both checksums right, whatever follows. |
| SevenZip.ArchiveReadsBack | qualification/section-2/synthetic_7z.py:30-71 | Reading the written bytes recovers everything recorded, exactly when the last size is not negative and no name holds U+0000. |
| SevenZipWriter.Archive | qualification/section-2/synthetic_7z.py:35-71 | The writer raises exactly the planned error, and otherwise writes the bytes of the planned contents. |
| SevenZipWriter.ArchiveRoundTrip | qualification/section-2/synthetic_7z.py:35-71 | Every archive the writer produces reads back to its names, sizes, checksums, method and packed bytes exactly when a caller-checkable condition on names and last size holds. |
| SevenZipWriter.PlanAccepts | qualification/section-2/synthetic_7z.py:37-71 | With matching lists, a payload within the ceiling and countable lengths, the writer accepts exactly encodable names and sizes of which all but the last, and the sum, are 64-bit numbers. |
| SevenZipWriter.DeclaredSizesAccepted | qualification/section-2/synthetic_7z.py:37-71 | Non-negative declared sizes, one for each entry, with a sum below 2^64 are always written, and with NUL-free names the archive reads back to all of them. |
| SevenZipWriter.NegativeSizeAccepted | qualification/section-2/synthetic_7z.py:40-66 | Two empty entries declared 1 and -1 are written, and the archive is refused by the reader. |
| SevenZipWriter.NulNameAccepted | qualification/section-2/synthetic_7z.py:69 | An entry named U+0000 is written, and the archive is refused by the reader. |
| SevenZipWriter.EntriesInPlace | qualification/section-2/synthetic_7z.py:64-69 | Of every accepted archive: name and checksum i are those of entry i, and without declared sizes so is size i. |
| SevenZipWriter.PayloadInPlace | qualification/section-2/synthetic_7z.py:37 | The payload holds each entry's bytes in one stretch, behind the bytes of the entries before it. |
| SevenZipWriter.MethodPacks | qualification/section-2/synthetic_7z.py:43-57 | Which bytes each of the four methods packs, under which id and with which properties. |
| SevenZipWriter.PackedInPlace | qualification/section-2/synthetic_7z.py:44-63 | The recorded packed bytes, id, properties, checksums and unpacked size are those of the method's packing of the payload. |
| SevenZipWriter.CeilingIsFourMebibytes | qualification/section-2/synthetic_7z.py:38-39 | A payload is over the ceiling exactly when it has more than 4194304 bytes. |
| SevenZipWriter.SumInPlace | qualification/section-2/synthetic_7z.py:63 | Every size counts once in the sum, wherever it stands. |
| SevenZipExamples.TwoBytes | qualification/section-2/synthetic_7z.py:16-23 | The bytes of a two-byte number, the shortest form with a length tag. |
| SevenZipExamples.SurrogatePairExample | qualification/section-2/synthetic_7z.py:69 | A code point beyond the basic plane and one within it, byte by byte (RFC 2781, section 5). |
| SevenZipExamples.OnlySurrogatesRefused | qualification/section-2/synthetic_7z.py:69 | Exactly the code points from U+D800 to U+DFFF cannot be encoded. |
| SevenZipExamples.PackInfoLayout | qualification/section-2/synthetic_7z.py:58 | The packed-stream section byte by byte. |
| SevenZipExamples.UnpackInfoLayout | qualification/section-2/synthetic_7z.py:59-63 | The folder section byte by byte, without properties and with the one of LZMA2. |
| SevenZipExamples.SubStreamsLayout | qualification/section-2/synthetic_7z.py:64-68 | The sizes and digests section byte by byte, for one entry and for two. |
| SevenZipExamples.FilesLayout | qualification/section-2/synthetic_7z.py:69-70 | The files section byte by byte, for one name and for two. |
| SevenZipExamples.SignatureLayout | qualification/section-2/synthetic_7z.py:30-32 | The 32 bytes before the packed area: signature, version, start header and its checksum. |
| SevenZipExamples.LittleEndianExample | qualification/section-2/synthetic_7z.py:26-27 | Four bytes, the lowest first. |
| SevenZipExamples.HeaderLayout | qualification/section-2/synthetic_7z.py:71 | The sections of the header, in order, and the bytes between them. |
| JsonPointer.EscapeRoundTrip | qualification/section-2/probe-corpus.py:53 | Unescaping undoes the key escaping (RFC 6901, sections 3 and 4). |
| JsonPointer.EscapeStep | qualification/section-2/probe-corpus.py:53 | A tilde becomes ~0, a slash ~1, and every other character stays. |
| JsonDiff.Differences | qualification/section-2/probe-corpus.py:46-73 | The recursion returns the specified entries, at any starting path. |
| JsonDiff.MemberDifferences | qualification/section-2/probe-corpus.py:50-60 | Members are compared in sorted key order, with presence flags for one-sided keys. |
| JsonDiff.ItemDifferences | qualification/section-2/probe-corpus.py:61-72 | Every index up to the longer list is compared, with presence flags past the shorter one. |
| JsonDiff.PatchedIsActual | qualification/section-2/probe-corpus.py:46-73 | What the patch leaves is the actual value exactly when no sign of a zero differs. |
| JsonDiff.DiffRebase | qualification/section-2/probe-corpus.py:53-71 | A starting path only prefixes every reported pointer. |
| JsonDiff.DiffTruthful | qualification/section-2/probe-corpus.py:52-72 | Each reported pointer evaluates, in either value, to exactly the value and presence the entry reports. |
| JsonDiff.DiffDistinct | qualification/section-2/probe-corpus.py:52-72 | The reported pointers are pairwise distinct. |
| JsonDiff.DiffEmpty | qualification/section-2/probe-corpus.py:46-73 | The result is empty exactly when the two values are equal in type and structure, scalars by Python's equality. |
| JsonDiff.DiffNeeded | qualification/section-2/probe-corpus.py:48-73 | Every entry is one-sided with null for the other side, or of different types, or of two different scalars of one type: none could be left out or refined. |
| JsonDiff.MembersInOrder | qualification/section-2/probe-corpus.py:52 | Entries of two objects follow the order of the keys they lie under. |
| JsonDiff.ItemsInOrder | qualification/section-2/probe-corpus.py:63 | Entries of two arrays follow the order of the indices. |
| Strings.LessMeans | qualification/section-2/probe-corpus.py:52 | One string is below another exactly when they agree up to a place where it ends or has the smaller character. |
| Strings.DecimalDigits | qualification/section-2/probe-corpus.py:64 | An index is written in decimal digits, the highest first. |
| JsonPatch.DiffIsPatch | qualification/section-2/probe-corpus.py:46-73 | Applying the entries by their presence flags always succeeds, and yields the actual value exactly when no sign of a zero differs. |
| JsonPatch.FloatsTheDiffMisjudges | qualification/section-2/probe-corpus.py:73 | Concrete values: 0.0 against -0.0 reports nothing, NaN against itself reports a difference. |
| Json.FloatEqualMeans | qualification/section-2/probe-corpus.py:73 | Of floats, NaN equals nothing, the two zeros equal each other, and everything else itself alone. |
| OrderStatistics.RankedMeaning | qualification/section-16/dispatch.py:51-53 | The k-th entry of the sorted list is at most y exactly when more than k values are. |
| OrderStatistics.RankedMonotone | qualification/section-16/dispatch.py:51-53 | Pointwise larger lists have larger order statistics. |
| OrderStatistics.CountIsSize | qualification/section-16/dispatch.py:51-53 | Counting values is the size of the set of their positions. |
| Dispatch.ComputeBounds | qualification/section-16/dispatch.py:15-53 | Bounds are returned exactly for accepted cohorts, and are the specified rows, offset interval and percentiles. |
| Dispatch.IntersectClocks | qualification/section-16/dispatch.py:18-29 | The handshake loop returns the intersection of all 64 offset intervals, or refuses. |
| Dispatch.CollectRows | qualification/section-16/dispatch.py:30-49 | The sample loop accepts exactly the good samples and derives their rows. |
| Dispatch.OffsetInterval | qualification/section-16/dispatch.py:19-27 | An offset satisfies every handshake exactly when it lies between the largest lower and the smallest upper end. |
| Dispatch.CommonOffset | qualification/section-16/dispatch.py:27-29 | The clocks are accepted exactly when one offset satisfies all handshakes. |
| Dispatch.IntervalCheck | qualification/section-16/dispatch.py:41-42 | A sample is refused for its interval exactly when no consistent offset makes it causal. |
| Dispatch.BoundsAreTight | qualification/section-16/dispatch.py:45-48 | Both bounds of a row are reached by offsets the data allow. |
| Dispatch.AcceptanceIsSound | qualification/section-16/dispatch.py:22-53 | For every offset the data allow, each true latency lies within its bounds, and the true 61st smallest between the two p95 bounds, themselves at most the wall p95. |
| Dispatch.ExplainedIsNotRefused | qualification/section-16/dispatch.py:27-42 | A cohort one offset explains is never refused for its clocks or its intervals. |
| Dispatch.AcceptedMeans | qualification/section-16/dispatch.py:15-43 | A cohort is accepted exactly when 64 handshakes and 64 samples are well-formed and number on, one offset satisfies all handshakes, and some such offset makes each sample causal. |
| Dispatch.PercentilesCount | qualification/section-16/dispatch.py:45-53 | Each of the three percentiles is at most y exactly when more than 60 of the 64 values are; rows keep number, native time and wall time. |
| DispatchReport.Measured.Measure | qualification/section-16/dispatch.py:56-80 | The report object ends in the specified state, including the half-updated one when the second cohort is refused. |
| DispatchReport.GateIsSound | qualification/section-16/native.py:217-222 | A measured cohort that passes the gate on upper bounds has its true p95 within the limit, for every offset the data allow. |
| DispatchReport.MeasuredGatesAreSound | qualification/section-16/native.py:217-222 | A report that was measured and passes both gates has both true p95s within the limit, for every offset the data allow. |
| DispatchReport.VerifyEvents | qualification/section-16/dispatch.py:83-102 | The log is accepted exactly when it is complete, contiguous per kind, ordered in time, and holds every measured acknowledgement. |
| DispatchReport.SequenceFixesOrder | qualification/section-16/dispatch.py:89-95 | In an accepted log the sequence of a kind determines the position. |
| DispatchReport.AcknowledgementsEmbed | qualification/section-16/dispatch.py:83-102 | Accepted cohorts embed into an accepted log at strictly increasing positions with non-decreasing times. |
| DispatchReport.Summarize | qualification/section-16/linux_dispatch.py:43-63 | Derived intervals exist exactly when the witnesses agree, and are the specified ones. |
| DispatchReport.IntervalsAreSound | qualification/section-16/linux_dispatch.py:52-61 | For every offset the data allow, the time from callback to observation lies in the derived interval. |
| DispatchReport.GateCounts | qualification/section-16/native.py:217-222 | A measured cohort that passes the gate has at least 61 of its 64 true latencies within the limit. |
| DispatchReport.MeasuredGatesCount | qualification/section-16/native.py:217-222 | So have both cohorts of a measured report that passes both gates. |
| DispatchReport.MeasurableMeans | qualification/section-16/dispatch.py:61-73 | A cohort is measured exactly when it is accepted, its percentile counts its 64 wall times, and each sample agrees with its state and wall time. |
| DispatchReport.MeasuredMeans | qualification/section-16/dispatch.py:58-80 | What the report becomes in each of its three outcomes: upper bounds as times, the observer's times kept, version 3 only at the end. |
| DispatchReport.CompleteLogMeans | qualification/section-16/dispatch.py:85-97 | A log is complete exactly when it has 106 to 4096 events, 106 of them searches, each numbered by the events of its kind up to it and no earlier than its predecessor. |
| DispatchReport.IntervalsAreTight | qualification/section-16/linux_dispatch.py:52-61 | Both ends of both intervals are reached by offsets the data allow. |
| DispatchReport.GateMeans | qualification/section-16/native.py:217-222 | The gate is 64 times, their percentile by counting, and that at most the limit. |
| DispatchReport.AgreesMeans | qualification/section-16/linux_dispatch.py:52-55 | A witness agrees exactly when the kind's state is the acknowledgement and the wall time is observation minus start. |
| Payload.TakeInventory | scripts/native_release/files.py:54-70 | Whatever order the walk has, the inventory succeeds exactly on real trees and is the inventory of the tree. |
| Payload.NormalModeDigits | scripts/native_release/files.py:66-68 | In octal digits: 0o755 when one of the three has its execute bit, else 0o644. |
| Payload.InventoryByPath | scripts/native_release/files.py:54-70 | The inventory by paths: size, digest and normal mode of each regular file, and nothing else. |
| PayloadFiles.Volume.CopyFile | scripts/native_release/files.py:30-39 | Succeeds exactly for a regular source and a free target, writing the bytes with a normal mode and nothing else but missing parents; a refusal changes nothing. |
| PayloadFiles.Volume.CopyTree | scripts/native_release/files.py:42-51 | Succeeds exactly when the source holds only directories and regular files and the target is new with a parent; the volume gains exactly the copies and stays valid, and even a failed copy changes nothing that was there. |
| PayloadFiles.CopyKeepsInventory | scripts/native_release/files.py:42-70 | A copied tree has the inventory of its source. |
| FreshOutput.CreateOutput | scripts/native_release/files.py:73-92 | Succeeds exactly for a new path strictly below the boundary, without `..` and through no link; then only directories on the way to it are new, and a refusal changes nothing. |
| FreshOutput.CrossesLink | scripts/native_release/files.py:85-89 | The cursor finds a link exactly when a component below the boundary is one. |
| FreshOutput.DestinationMeans | scripts/native_release/files.py:79-82 | A relative request stands below the root, an absolute one for itself. |
| PayloadArchive.TarGzip | scripts/native_release/archive.py:10-32 | Succeeds exactly for a valid root and epoch, a free destination and an unchanged real payload; an existing destination is never changed, and the archive of a payload that changed stays behind. |
| PayloadInstall.PortableRootIsValid | scripts/native_release/archive.py:11 | Every root the extraction accepts is one the archive writer accepts. |
| PayloadArchive.SortedByDepth | scripts/native_release/archive.py:21 | The directory names are sorted by depth, then name, without repetition. |
| PayloadArchive.RootCharMeans | scripts/native_release/archive.py:11 | The characters a root may have, and may start with. |
| PayloadRoundTrip.MembersInOrder | scripts/native_release/archive.py:15-29 | No member is duplicated and every directory comes before everything below it. |
| PayloadInstall.Destination.Extract | scripts/native_release/install.py:38-70 | The destination ends as the member-by-member specification says, and nothing that was there is changed, whether or not extraction succeeds. |
| PayloadInstall.StepExtends | scripts/native_release/install.py:48-68 | Whatever the member, its step stays below the destination and replaces nothing. |
| PayloadInstall.StepExactly | scripts/native_release/install.py:47-67 | A member is accepted exactly when its name stays below the prefix and is new, it is a directory or has the sealed size and mode, and its place is free; then it and directories above it are all that is new. |
| PayloadInstall.AcceptedMember | scripts/native_release/install.py:47-67 | In an accepted extraction every member is admissible and in its place at the end. |
| PayloadInstall.AcceptedNamesDiffer | scripts/native_release/install.py:50-54 | No two accepted members share a name. |
| PayloadInstall.AcceptedAddsOnly | scripts/native_release/install.py:47-67 | Everything an accepted extraction adds is a member or a directory above one. |
| PayloadInstall.VerdictMeans | scripts/native_release/install.py:68-70 | The final comparison passes exactly when the installed files and the sealed ones are the same, with the same sizes, digests and modes, and nothing special is there. |
| PayloadInstall.BoundsMean | scripts/native_release/install.py:45-46 | At most 10000 members and 268435456 bytes in all. |
| PayloadInstall.PortableRootMeans | scripts/native_release/install.py:40-42 | The root is the product, a version and the one target. |
| PayloadInstall.ThreeNumbersMeans | scripts/native_release/install.py:40-42 | A version is three runs of digits joined by dots. |
| PayloadInstall.PrefixMeans | scripts/native_release/install.py:40-42 | For the one target the root is portable exactly when the version is three numbers. |
| PayloadInstall.NumberMeans | scripts/native_release/install.py:41 | A number is one or more of the ten digits. |
| PosixPaths.ParseByComponent | scripts/native_release/install.py:48-52 | Paths are read component by component: empty ones and `.` vanish, `..` stays, a leading slash makes them absolute. |
| PosixPaths.PrintedPaths | scripts/native_release/install.py:51 | How relative, absolute and empty paths are printed. |
| PosixPaths.StripsSlashes | scripts/native_release/install.py:51 | All slashes at the end of a member name are stripped, and nothing else. |
| PosixPaths.JoinSlashes | scripts/native_release/archive.py:21 | The depth that orders directories is the number of components less one. |
| PayloadRoundTrip.ExtractAccepts | scripts/native_release/install.py:48-68 | Extraction accepts every faithful member list without duplicates. |
| PayloadRoundTrip.PayloadSurvives | scripts/native_release/install.py:38-70 | Extracting the archive written under the matching root into an empty directory succeeds and leaves the same inventory. |
| PayloadRoundTrip.EveryAncestorIsArchived | scripts/native_release/archive.py:15-24 | For every file and every proper prefix of its path, the directory there is archived, with mode 0o755, the epoch and no data. |
| PayloadRoundTrip.EveryFileIsArchived | scripts/native_release/archive.py:25-29 | Every file is archived under its path with its bytes, its normal mode and the epoch. |
| PayloadRoundTrip.OnlyTheseAreArchived | scripts/native_release/archive.py:15-29 | Every member is the root, a directory above some file, or one of the files. |
| Wayland.ProtocolChecks | qualification/section-2/check-wayland.py:106-129 | The nested loops report a configured window, or a submitted buffer, exactly when the traced messages hold such a handshake, or such a submission, at some positions. |
| Wayland.ConfiguredMeans | qualification/section-2/check-wayland.py:108-123 | A configured window is reported exactly when the trace holds, in order, get_xdg_surface, get_toplevel, a received configure and its ack with no configure between. |
| Wayland.SubmittedMeans | qualification/section-2/check-wayland.py:108-128 | A submitted buffer is reported exactly when such a window then sees a non-null attach and a commit, with no further configure up to the commit and no null attach between. |
| Wayland.SubmittedImpliesConfigured | qualification/section-2/check-wayland.py:123-129 | A submitted buffer implies a configured window. |
| Wayland.ReportsAreMonotone | qualification/section-2/check-wayland.py:107-129 | Extending a trace never retracts either report. |
| Wayland.TraceConfigured | qualification/section-2/check-wayland.py:107-123 | In terms of the traced messages: a configured window is reported exactly when some positions hold the sent get_xdg_surface and get_toplevel, the received configure and the sent ack of its arguments. |
| Wayland.TraceSubmitted | qualification/section-2/check-wayland.py:107-128 | In terms of the traced messages: a submission is reported exactly when such a handshake is followed by a sent non-null attach and a commit. |
| Wayland.MappingMeans | qualification/section-2/check-wayland.py:111-114 | Which argument texts map which identities: optional words, two object references in digits, spaces after the comma. |
| Wayland.NonNullMeans | qualification/section-2/check-wayland.py:126 | A buffer is attached exactly when the arguments start with a reference without leading zero and a comma or closing parenthesis. |
| Wayland.TenDigits | qualification/section-2/check-wayland.py:111 | A digit is one of ten. |
| Wayland.SpaceCodes | qualification/section-2/check-wayland.py:111 | The spaces a comma may be followed by, by their code points. |
| MonitorLines.SocketLines.ReadLine | qualification/section-2/check-linux-vm.py:66-81 | Returned lines plus buffer are the bytes received; a line ends at its only newline; the buffer stays within the limit; apart from the deadline the outcome is fixed by the pending bytes. |
| MonitorLines.ChunkingIsIrrelevant | qualification/section-2/check-linux-vm.py:66-81 | Two readers of one byte stream, cut in any way, return lines of which one is a prefix of the other. |
| MonitorLines.FateMeans | qualification/section-2/check-linux-vm.py:66-81 | A line is read exactly when the bytes begin with one within the limit; bytes below the limit without newline end in a disconnection. |
| MonitorLines.FourMebibytes | qualification/section-2/check-linux-vm.py:49-50 | A reply line has at most 4194304 bytes. |
| MonitorReplies.Receive | qualification/section-2/check-linux-vm.py:46-58 | Unless the deadline passes, the outcome is the one the pending bytes determine: the answer of the first line that carries the expected id, every line before it carrying another. |
| MonitorReplies.AnswerIsFound | qualification/section-2/check-linux-vm.py:46-58 | Behind any foreign lines, a line with the expected id gives the answer, and the bytes after it are left. |
| MonitorReplies.SameAnswerHoweverCut | qualification/section-2/check-linux-vm.py:46-81 | Two receives of one stream that both get an answer get the same one. |
| MonitorCalls.Call | qualification/section-2/check-linux-vm.py:88-114 | Unless the deadline passes, the outcome is the one the pending bytes determine; the request goes out only after our token came back, or after a greeting and accepted capabilities; a result comes from the first later line with the request's id; an unanswered call is possible only for the guest's shutdown. |
| MonitorCalls.EqualsIntMeans | qualification/section-2/check-linux-vm.py:97-101 | Only the token itself, as a number or the truth value for 0 and 1, confirms the synchronization. |
| MonitorCalls.GuestAnswers | qualification/section-2/check-linux-vm.py:96-114 | Over given lines: a guest call returns the request's value exactly when the synchronization returned the token. |
| MonitorCalls.MonitorAnswers | qualification/section-2/check-linux-vm.py:101-114 | Over given lines: a monitor call returns the request's value behind an accepted greeting and the capabilities. |
| MonitorReplies.Collect | qualification/section-2/check-linux-vm.py:259-277 | The file is the concatenation of the pieces exactly when every count was right, every piece but the last brought bytes and the total fits; the handle is closed once in any case. |
| MonitorReplies.ForeignMeans | qualification/section-2/check-linux-vm.py:49-54 | A line is passed over exactly when it is at most 4194304 bytes long, decodes, and carries another id or none. |
| MonitorReplies.AnswerMeans | qualification/section-2/check-linux-vm.py:50-57 | What each other line comes to: too long, undecodable, an error, or its value. |
| MonitorReplies.StripsMarks | qualification/section-2/check-linux-vm.py:52 | Exactly the leading bytes 255 are dropped. |
| MonitorReplies.TransferredMeans | qualification/section-2/check-linux-vm.py:264-277 | A collected file is its pieces' bytes in order, and at most 67108864 of them. |
| Lineage.Baseline.Remove | xtask/check_sources.py:512-521 | Removal succeeds exactly when distinct positions hold the recorded identities, and leaves the elements at the other indices, in order. |
| Lineage.Baseline.Rename | xtask/check_sources.py:486-490 | The renames are applied in order, or refused at the first that does not find its new identity. |
| Lineage.RestoreUndoes | xtask/check_sources.py:516-521 | Re-inserting the removed identities in ascending order restores the original list. |
| Lineage.RenameCommutesWithRemove | xtask/check_sources.py:542-556 | With distinct identities, renames accepted before and after the removal, of either sign and repeated or not, commute with it when no two different positions meet in a slot of either list, and stand before everything removed exactly when nothing is removed or no position is negative. |
| Lineage.AlignedCommutes | xtask/check_sources.py:542-556 | Renames that hit the same elements in both lists are accepted before the removal exactly when after it, and commute, whatever the identities. |
| Lineage.SignDecides | xtask/check_sources.py:544-548 | A non-negative position on the same element stands before everything removed, a negative one behind everything removed. |
| Lineage.OneSignApart | xtask/check_sources.py:544-548 | Different positions of one sign never meet in a slot, in lists of any length. |
| Lineage.UnchainedApart | xtask/check_sources.py:486-490 | Of accepted renames of which none expects an identity an earlier one restored, no two meet in a slot. |
| Lineage.CheckLineage | xtask/check_sources.py:542-556 | The two histories are accepted exactly as specified, and with distinct identities and renames that do not meet, or are not chained, they differ by the removal alone. |
| Lineage.SingleMoveCommutes | xtask/check_sources.py:542-548 | One rename of either sign accepted on both sides commutes with the removal, and stands before it exactly when its position is not negative or nothing is removed. |
| Lineage.NegativeMoveBehindRemoval | xtask/check_sources.py:545-547 | An accepted negative rename behind a removed position. |
| Lineage.MixedMovesDisagree | xtask/check_sources.py:545-548 | Accepted renames that meet only in the shorter list, whose results disagree after the removal. |
| Lineage.MeetingMovesDisagree | xtask/check_sources.py:545-548 | Accepted renames that meet only in the full list, whose results disagree after the removal. |
| Lineage.KeptMeans | xtask/check_sources.py:516-521 | The kept indices are exactly those below the length that are not removed. |
| Lineage.RenamedOne | xtask/check_sources.py:486-490 | One rename acts at its index, or as far from the end as a negative position says, and only on its new identity. |
| Lineage.RenamedConcat | xtask/check_sources.py:486-490 | Later renames start from what the earlier ones left. |
| ObservationWaits.ObservationWait.constructor | qualification/section-2/check-native-macos.py:34-38 | The deadline is the minimum of its own and its parent's, and the mutation counter is the parent's own or a new one at zero. |
| ObservationWaits.Observer.Perform | qualification/section-2/check-native-macos.py:248-291 | Does what `ExecAction` says of a command: a mutation is counted, and within a wait a snapshot after the deadline is not issued and an earlier one for no longer than remains. |
| ObservationWaits.Observer.Run | qualification/section-2/check-native-macos.py:248-324 | Whatever commands and waits a predicate nests, the observer with its shared counter has exactly the outcome and the events of `Exec`, which has no counter, and counts exactly the mutating commands issued. |
| ObservationWaits.Observer.WaitFor | qualification/section-2/check-native-macos.py:302-324 | A wait has exactly the outcome and the events of `ExecAction`, and leaves the previous wait active. |
| ObservationWaits.Observer.Loop | qualification/section-2/check-native-macos.py:307-322 | The loop has exactly the outcome and the events of `ExecRounds`. |
| ObservationWaits.RunsAreGood | qualification/section-2/check-native-macos.py:302-324 | In every run of every script a swallowed snapshot had no mutating command since its round began, at any depth, and a re-raised one had; nested deadlines are at most their parent's; values are returned, and snapshots requested, only in time. |
| ObservationWaits.GoesOnMeans | qualification/section-2/check-native-macos.py:307-321 | A wait goes on exactly after a round begun in time whose predicate was false, or true too late, or met an unavailable snapshot without having issued a mutating command. |
| ObservationWaits.ReturnsMeans | qualification/section-2/check-native-macos.py:307-322 | A wait returns exactly when some round begun in time is true and still in time and the loop went on after all earlier ones, and what it returns is true. |
| ObservationWaits.NothingIsRepeated | qualification/section-2/check-native-macos.py:311-315 | A round that issued a mutating command and then met an unavailable snapshot ends its wait with that exception, and no further event follows. |
| ObservationWaits.MutationsQuiet | qualification/section-2/check-native-macos.py:308-314 | The count of a run is zero exactly when it issued no mutating command. |
| ObservationWaits.CallMeans | qualification/section-2/check-native-macos.py:248-291 | Only a snapshot within a wait has its time cut, to the smaller of its own and what remains; only an unavailable snapshot raises what a round may pass over. |
| ObservationWaits.LateSnapshot | qualification/section-2/check-native-macos.py:252-255 | Past the deadline no snapshot is requested. |
| ObservationWaits.WaitMeans | qualification/section-2/check-native-macos.py:303-305 | A wait's deadline is its own or its parent's, whichever is earlier. |
| ObservationWaits.ScriptMeans | qualification/section-2/check-native-macos.py:302-324 | What follows an action happens behind it, unless its exception went uncaught. |
| ObservationWaits.RoundMeans | qualification/section-2/check-native-macos.py:307-320 | A round shows its predicate's events, and whether an unavailable snapshot was met or a timely value returned. |
| SourceTree.Relative | xtask/check_import_sources.py:68-74 | Accepts exactly the canonical names. |
| SourceTree.Safe | xtask/check_import_sources.py:77-85 | Accepts exactly canonical names that cross no link from the root on. |
| SourceTree.RegularFile | xtask/check_import_sources.py:88-98 | Accepts exactly unaliased regular files with one link. |
| SourceTree.StartsWith | xtask/check_import_sources.py:117 | The textual test for a folder prefix is the prefix relation of paths. |
| SourceTree.CanonicalMeans | xtask/check_import_sources.py:68-74 | A canonical name is usable components joined by slashes, without backslash, colon or control character. |
| ExactChildren.CheckExact | xtask/check_import_sources.py:110-138 | Terminates on every finite tree and succeeds exactly when the folder holds exactly the expected singly linked regular files and only directories on the way to them. |
| ExactChildren.DirectoriesArePrecise | xtask/check_import_sources.py:114-121 | The directories of an accepted folder are precisely the proper ancestors of its files. |
| ExactChildren.Walk | xtask/check_import_sources.py:122-136 | The worklist finds every file below the folder exactly when every entry fits, in any listing order. |
| ExactChildren.AddAncestors | xtask/check_import_sources.py:119-121 | Adds exactly the directories strictly between the folder and the file. |
| ExactChildren.ExactMeans | xtask/check_import_sources.py:110-138 | By paths of the tree: the expected files are there, each regular with one link, and everything below the folder is one of them or a directory on the way to one. |
| StoryTraversal.Search | qualification/section-16/resource-macos.swift:184-211 | A pass visits distinct elements in preorder, at most 4096; it is the preorder cut at the first match when the forest fits, and without a match it visits all of the forest or exactly 4096 elements; the trace records every visit. |
| StoryTraversal.TraceIsHead | qualification/section-16/resource-macos.swift:168-170 | The trace keeps the first 512 entries and counts the others. |
| StoryTraversal.Descend | qualification/section-16/resource-macos.swift:210 | Stacking only as many children as the budget allows keeps visited plus pending within 4096 and the order faithful. |
| StoryTraversal.DocumentOrder | qualification/section-16/resource-macos.swift:184-210 | The order a search follows holds every element reachable from the first 16 windows, each at its depth, in document order. |
| StoryTraversal.StoryRow | qualification/section-16/resource-macos.swift:168-207 | What is looked for, in title or description of a readable element. |
| StoryTraversal.EntryMeans | qualification/section-16/resource-macos.swift:196-206 | What the trace says of a visit: its pass, number and depth, and what was found there or that the query was refused. |
| QuitTraversal.FindQuit | qualification/section-16/resource-macos.swift:60-95 | A poll examines a prefix of the first 256 items of the level order, stops at the first Quit item at depth two and decides by it, visits nothing once the deadline has passed, and reports none only after all of them. |
| QuitTraversal.LevelsUnfold | qualification/section-16/resource-macos.swift:60-93 | The three levels in order are the fixed point of visiting and queueing. |
| QuitTraversal.LevelsMean | qualification/section-16/resource-macos.swift:60-93 | The level order is the menu, its children in order, and theirs in order. |
| QuitTraversal.QuitItem | qualification/section-16/resource-macos.swift:62-76 | Exactly a menu item at depth two with one of the two titles is taken. |
| QuitTraversal.PressMeans | qualification/section-16/resource-macos.swift:76-83 | Which press succeeds, and which of its three conditions a failure reports. |
| Exports.Freeze | scripts/packaged_acceptance/exports.py:8-39 | A scope is frozen exactly when every requested UUID is selected once, every row is vouched for by its bytes, names are free in turn, and something is eligible. |
| Exports.FrozenCovers | scripts/packaged_acceptance/exports.py:9-31 | The frozen items are the requested UUIDs, each with its row's outcome. |
| Exports.FrozenFilesAreOnDisk | scripts/packaged_acceptance/exports.py:18-34 | The frozen files are exactly the requested rows that are not skipped, with the size and digest found on disk. |
| Exports.FrozenConserves | scripts/packaged_acceptance/exports.py:26-39 | Item bytes, file bytes and the total are equal, and the outcome is partial exactly when an item is skipped. |
| Exports.Verify | scripts/packaged_acceptance/exports.py:42-63 | An operation is accepted exactly when its header, groups and files match and its items biject with the frozen ones. |
| Exports.AnyOrder | scripts/packaged_acceptance/exports.py:53-60 | The order of an operation's items does not matter. |
| Exports.AcceptedConserves | scripts/packaged_acceptance/exports.py:42-63 | The completed bytes of accepted items are the bytes of the exported files and the operation's total. |
| Exports.TotalBytes | scripts/packaged_acceptance/exports.py:39 | The sum over the files does not depend on their order. |
| Exports.ItemMeans | scripts/packaged_acceptance/exports.py:23-30 | A broken row is skipped and counts no bytes, any other is exported in full, and both keep the row's identity. |
| Exports.PlainNameMeans | scripts/packaged_acceptance/exports.py:20-22 | Which names pathlib returns unchanged: usable ones, the empty one and `..`. |
| Exports.AcceptedMeans | scripts/packaged_acceptance/exports.py:42-63 | What an accepted operation is like, field by field. |
| Canonical.Visit | preservation/generator/main.go:62-88 | The recursive assignment reaches the canonical tree in any map order. |
| Canonical.CanonTwice | preservation/generator/main.go:59-88 | Canonicalising is idempotent. |
| Canonical.SameCanonIffAgree | preservation/generator/main.go:57-88 | Two trees have one canonical form exactly when they agree everywhere except under masked keys, there up to empty or not, and for times up to null as well. |
| Canonical.MasksOnly | preservation/generator/main.go:57-58 | A tree and its canonical form agree outside masked content. |
| Canonical.TimeKeys | preservation/generator/main.go:72 | The five keys whose values are observation times. |
| Canonical.MemberMeans | preservation/generator/main.go:65-79 | A ticket or a time that is there is replaced by its placeholder; an empty one and a missing time stay; any other member is canonicalised. |
| ImageDisposal.Disposal.Detach | scripts/verify-native-relocation.py:64-167 | Against any disk tool: at most four detaches, each legal and, after the first, rested before; a normal return exactly when the run ended by seeing the image absent and the mountpoint released and the receipt was written, and true exactly when a forced detach was issued; any other end has its reason in the last events. |
| ImageDisposal.SafeAt | scripts/verify-native-relocation.py:131-156 | Each detach names the one whole disk the owned row of the immediately preceding inventory gives, after attempts that were all busy. |
| ImageDisposal.ForcedIsFourth | scripts/verify-native-relocation.py:144-156 | Force comes once, as the fourth and last detach, after three unforced ones that answered busy and were seen attached again. |
| ImageDisposal.AtMostFour | scripts/verify-native-relocation.py:131-156 | No run issues more than four detaches. |
| ImageDisposal.BackingDisk | scripts/verify-native-relocation.py:135-143 | A device is named exactly when the row lists one partition-scheme entity and it is a whole disk. |
| ImageDisposal.ListingMeans | scripts/verify-native-relocation.py:72-93 | Of a well-formed inventory: the image is absent exactly when no row names it, attached exactly when one does, and that row is the owned one. |
| ImageDisposal.BacksOnlyMeans | scripts/verify-native-relocation.py:135-143 | The device is that of the row's only partition scheme, and is `/dev/disk` and digits. |
| ImageDisposal.BacksMeans | scripts/verify-native-relocation.py:131-143 | A device backs the image exactly when the only row naming it gives that device. |
| ImageDisposal.DisposedMeans | scripts/verify-native-relocation.py:95-100 | At a normal return no row of the last inventory names the image, the mountpoint was released and the receipt written. |
| ImageDisposal.DetachMeans | scripts/verify-native-relocation.py:131-156 | Each detach names the disk of the only row naming the image, after at most three unforced ones that exited with 16, with the waits of 1, 2 and 3 seconds between, and is forced exactly as the fourth. |
| ImageDisposal.NeverIncomplete | scripts/verify-native-relocation.py:130-157 | The loop never runs out of attempts: its fourth one decides. |
| ImageDisposal.RecordedOne | scripts/verify-native-relocation.py:84-93 | What the receipt says of an inventory, a detach and a look at open files. |
| ImageDisposal.RecordedConcat | scripts/verify-native-relocation.py:66-158 | The receipt lists the observations event by event, in order. |

## Left out

- Wayland.ProtocolChecks: takes the parsed messages; the regular expressions that turn trace lines into messages are not modelled, and a digit is an ASCII one.
- SevenZip.ArchiveReadsBack: the reader covers what this writer can write (one folder, one coder, all digests defined), not every 7z container; compression and CRC-32 are parameters.
- Utf16.NamesReadBack: a Python string may hold a lone surrogate; here it is a code point the encoder refuses.
- Dispatch.ComputeBounds: the integer type checks are settled by typing the fields, and milliseconds in floating point are integer nanoseconds.
- DispatchReport.MeasureCohort: wall times are compared exactly, not within 1e-9 ms, and finiteness is not a question for integers.
- Payload.TakeInventory: the tree stands still during the walk, and hashing is a parameter.
- PayloadFiles.Volume.CopyTree: the source is a tree apart from the volume, so copying into itself, I/O errors and the digest comparison against a concurrent change are not modelled.
- FreshOutput.CreateOutput: the resolved boundary and the set of links are given; a relative root and the working directory are not modelled.
- PayloadArchive.TarGzip: the tar and gzip byte layouts are a member list; header fields other than name, kind, size, mode and time, and a destination whose parent is missing, are not modelled.
- MonitorLines.SocketLines.ReadLine: the peer's bytes are a fixed stream cut arbitrarily; select, timeouts and the clock are one nondeterministic deadline.
- MonitorCalls.Call: connecting, sending and the call's timeout are not modelled, and the peer's bytes do not depend on what was sent, so every byte stream is considered.
- MonitorReplies.Collect: opening, base64 and unpacking the evidence are not modelled.
- Lineage.RenameCommutesWithRemove: where two different positions meet in a slot, the results can agree or not, depending on the identities; counterexamples show that neither list's condition can be dropped.
- Lineage.Baseline.Rename: digests, pins and the reasons recorded with a change are not modelled.
- ObservationWaits.Observer.Run: a run is a finite script of commands, waits, answers and clock readings; the recognition of the helper's unavailable replies is one answer.
- ExactChildren.CheckExact: the tree stands still during the walk; junctions count as links.
- StoryTraversal.Search: the elements stand still during a pass; the outer polling loop, its deadline and query timings are not modelled.
- QuitTraversal.FindQuit: one poll of the outer loop; the trace of 64 entries is not modelled.
- Exports.Freeze: names are POSIX paths, and resolving, `lstat`, `stat` and hashing of a managed path are one answer.
- Exports.Verify: decoding the JSON group lists is an oracle, and items are compared on the frozen fields only, as the source does.
- Canonical.Visit: maps and lists are values that the loops reassign; aliasing cannot occur in the freshly decoded tree and is not modelled.
- ImageDisposal.Disposal.Detach: the receipt keeps an inventory row whole rather than three fields of each entity, and the open-files diagnostic is a single event that never changes the outcome.
- Docker, QEMU, hdiutil, codesign, notarytool, cargo and git themselves: foreign processes.
- The accessibility, speech and screenshot drivers, `same_root`, `picker_root`, `go_folder_fields`: user interface and single conditions.
- The Rust product crates, the SQL and the Go services behind the generator: not part of this model.
- Pins, hash constants, name inventories and flat report predicates: each is settled by reading one condition.
