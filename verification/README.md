# N0xis: the measuring instruments and the release script, modelled in Dafny

This project models the logic of the N0xis repository that decides what its measurements and its releases
mean, and proves what that logic keeps. `dafny verify dfyconfig.toml` checks all of it.

- **The lying tables** (`oracle/obfuscation/lying.py`). `EhFrame.dfy` is the parser and the printer of
  `.eh_frame` (section 10.6 of LSB Core 5.0) with both round trips; `EhFrameHdr.dfy` the sorted search table
  and what an unwinder that searches it finds; `ElfImage.dfy` the header tables of the file as bytes and the
  new load segment; `EhWriter.dfy` the writer `write_eh` and the class it changes;
  `SmallImage.dfy` concrete records and images those claims apply to; `FdeEdits.dfy` the edits, what they do
  to the coverage of every address, and `verify`; `LyingTables.dfy` joins them, from the functions the truth
  knows to the written image.
- **The release script** (`scripts/release.py`). `ReleaseProtocol.dfy` is `publish` as a sequence of external
  steps that can each fail, over every sequence of runs; `ReleaseKeys.dfy` the rule on signing keys, over
  every sequence of releases.
- **The behaviour verdict** (`oracle/decomp-behaviour`). `BehaviourVerdict.dfy` is the comparison loop of the
  harness and the label read off its counters; `IntegerRoot.dfy` one function of the held-out corpus.
- **The scorers** (`oracle/rule-accuracy`, `oracle/obfuscation/lie_score.py`). `Extents.dfy` holds the fast
  lookups against their plain definitions; `Scoring.dfy` the classification and the counting.
- **The codecs and rewrites**. `JunkTwin.dfy` (the junk bytes and their reference twin), `Share.dfy` (the even
  share), `WindowsArguments.dfy` (the Windows command line), `Base64Wire.dfy` (base64 on the sweep's wire).
- `Bytes.dfy`, `Sorting.dfy` and `Text.dfy` hold what several of these use.

A Python exception is the value `Err` of `Result`; which exception it is does not matter to any claim here.
Numbers are unbounded as in Python, and every field width, wrap-around and sign is written out where the
program has one. Each loop of the source is a method proved equal to a recursive function, and the claims are
about that function: what it computes is stated again in terms of its inputs alone.

## Where the code and its own text disagree

The model follows the code.

- `chosen_indices` says it picks `round(intensity*count)`; it picks the floor. Python rounds a half to the even
  number, so they agree exactly when the remainder is below half, or is half and the floor is even
  (`Share.RoundedWhen`, `Share.HalfOfThree`).
- The patterns for unconditional transfers say a conditional `b.eq` is never matched, since its dot stops
  `\b`; a dot does not, nor does a dollar or the colon of a label: every dotted form of `b`, `br` and `ret`
  matches, and so does the label `ret:` (`JunkTwin.ConditionalBranchMatches`, `JunkTwin.LabelMatches`; exactly
  which lines match, and which of them are that instruction, in `JunkTwin.BeginsMeans`).
- `_func_regions` says a region's label is the nearest one preceding it; it is the nearest one preceding its
  end, so a label inside the function takes its place (`JunkTwin.RegionLabels`, `JunkTwin.LocalLabelTaken`).
  The two are one exactly when the last label inside, where there is one, repeats it
  (`JunkTwin.LabelOfFunction`).
- The release script says it refuses a version that has a higher tag, and keys that strand copies of any
  earlier release. It sees plain `vX.Y.Z` tags only (`ReleaseKeys.SuffixedTagsAreUnseen`,
  `ReleaseKeys.SuffixedReleaseStranded`).
- The recovery text assures that clients see nothing of a failed run; that is false when the last step fails
  after taking effect, and only then (`ReleaseProtocol.RecoveryText`, `ReleaseProtocol.PublicThoughFailed`).
- An FDE whose length field comes to 0xFFFFFFFF is printed without complaint and does not read back: that value
  is the escape for 64-bit DWARF (`SmallImage.EscapeUnread`). The round trip is stated as an equivalence
  (`EhFrame.PrintedReadsBack`), and no edit makes such a record (`LyingTables.EditedReadable`).
- The backward scan of `Truth.containing` stops at the first extent that starts more than 1 MiB below the
  address, so it can miss one that holds it (`Extents.EarlyStopMisses`), exactly when what it does not reach
  outranks what it does (`Extents.EarlyStopExactly`).
- `same` is also the verdict when the original stopped on every input and nothing was compared
  (`BehaviourVerdict.SameWithNothingCompared`), and for equal texts whose buffers differ, which are not looked
  at then (`BehaviourVerdict.SameWithBuffersDifferent`, `BehaviourVerdict.SameBuffers`).

## Model

| member | source | states |
|---|---|---|
| EhFrame.Uleb | oracle/obfuscation/lying.py:141-149 | the loop reads the unsigned LEB128 number of section 7.6 of DWARF 5 and the place after it, and raises exactly when the bytes end inside it |
| EhFrame.UlebReads | oracle/obfuscation/lying.py:141-149 | a number written as section 7.6 of DWARF 5 says reads back, wherever it stands |
| EhFrame.ParseCie | oracle/obfuscation/lying.py:166-190 | every CIE that is accepted has at least ten bytes, is kept whole, and has a `z` augmentation |
| EhFrame.ParseCieRecord | oracle/obfuscation/lying.py:166-190 | the loops over the augmentation accept, refuse and read exactly what `ParseCie` does |
| EhFrame.CieExactly | oracle/obfuscation/lying.py:166-190 | a CIE is accepted if and only if it is made of the parts section 10.6.1.1 of LSB Core 5.0 names, its letters are a `z` and then `R`, `S` and `B` only, and the byte of the last `R` states pcrel sdata4 |
| EhFrame.ReadEh | oracle/obfuscation/lying.py:193-218 | the reader's loop gives the records of the table in order up to the terminator, or raises, as the recursive reading does |
| EhFrame.ReaderRefuses | oracle/obfuscation/lying.py:193-218 | reading raises on 64-bit DWARF, a length with no identifier behind it, an identifier of no earlier CIE, an FDE cut off in its fixed fields and a CIE that is not accepted |
| EhFrame.TableEnds | oracle/obfuscation/lying.py:193-218 | a table ends at its terminator or where its bytes do: what is behind the terminator does not change what is read, nor does leaving it off |
| EhFrame.SerializeEh | oracle/obfuscation/lying.py:228-244 | the printer's loop gives the section's bytes and the (start, address) table of the recursive printing, and raises exactly when that does |
| EhFrame.FdeFields | oracle/obfuscation/lying.py:228-244 | the fields of a printed FDE are at the offsets of section 10.6.1.2 of LSB Core 5.0: length, distance back to the CIE, pc-relative start, length of the range, the rest |
| EhFrame.PrintedReadsBack | oracle/obfuscation/lying.py:193-244 | at every address, reading what was printed gives the same list, every start, length, CIE and trailing byte, if and only if every record is readable |
| EhFrame.RoundTrip | oracle/obfuscation/lying.py:193-244 | for readable records below 4 GiB, printing succeeds exactly when each FDE's CIE comes earlier and its range fits its fields, and then reads back as the list |
| EhFrame.ReadPrintsBack | oracle/obfuscation/lying.py:193-244 | printing what was read from a whole table gives the section's own bytes through its terminator, and all of it is readable |
| EhFrameHdr.SerializeEhHdr | oracle/obfuscation/lying.py:247-253 | the loop over the sorted table writes the header, and raises exactly when an entry, the pointer or the count does not fit |
| EhFrameHdr.HdrReadsBack | oracle/obfuscation/lying.py:247-253 | the written header has the version and encodings of section 10.6.2 of LSB Core 5.0, points at the records, counts the FDEs and holds the sorted table entry by entry |
| EhFrameHdr.TableMatches | oracle/obfuscation/lying.py:228-244 | the table has one entry per FDE, in record order, with its start, at strictly ascending record addresses |
| EhFrameHdr.EntryPoints | oracle/obfuscation/lying.py:228-253 | following a table entry into the printed records reads the FDE of that entry |
| EhFrameHdr.SearchedIsScanned | oracle/obfuscation/lying.py:247-253 | for every pc, the entry a binary search of the sorted table ends at is the one a linear scan of the records keeps, equal starts included |
| EhFrameHdr.LookUp | oracle/obfuscation/lying.py:228-253 | for every pc, searching the printed header and reading the printed records at the address found gives the FDE with the greatest start not above pc, or nothing exactly when no start is that low |
| ElfImage.HeaderExactly | oracle/obfuscation/lying.py:58-63 | a file is loaded exactly when it has a whole header with the magic, the class and the byte order of a little-endian ELF64 |
| ElfImage.HeaderFields | oracle/obfuscation/lying.py:58-63 | the layout is what the fields of the file header of chapter 4 of the gABI say |
| ElfImage.PhdrOffsets | oracle/obfuscation/lying.py:65-70 | the program header fields used lie at the byte offsets chapter 5 of the gABI gives them |
| ElfImage.ShdrOffsets | oracle/obfuscation/lying.py:75-86 | the section header fields used lie at the byte offsets chapter 4 of the gABI gives them |
| ElfImage.PutPhdrReads | oracle/obfuscation/lying.py:65-73 | a written program header reads back, every other entry is as it was, and no byte outside the table changes |
| ElfImage.PutShdrReads | oracle/obfuscation/lying.py:75-97 | a written section header reads back, every other entry is as it was, and no byte outside the table changes |
| ElfImage.Section | oracle/obfuscation/lying.py:78-86 | the scan finds the first section of that name, none, or raises on a name without its end |
| ElfImage.FindExactly | oracle/obfuscation/lying.py:78-86 | the lookup finds the first section of that name behind names that all end, none when all end and none is it, and raises otherwise |
| ElfImage.FindDistinct | oracle/obfuscation/lying.py:78-86 | two different names never find one section |
| ElfImage.SpareSlot | oracle/obfuscation/lying.py:115-124 | the slot taken is the last `PT_GNU_SFRAME`, or where there is none the last `PT_NOTE` the ABI tag is not in, and comes after every `PT_LOAD`; it is refused exactly when there is no load segment or no such slot behind them |
| ElfImage.NewSegmentFits | oracle/obfuscation/lying.py:109-130 | one header entry changes, the spare one, into a read-only load segment of the data's size; the data is at the offset it names, behind the file and zeros up to the alignment; the address is the first multiple of the alignment above every load segment, congruent to the offset; load segments in order stay in order without overlap; every old byte outside the header table is kept |
| EhWriter.PointFromReads | oracle/obfuscation/lying.py:285-288 | every `PT_GNU_EH_FRAME` names the header section's offset, address and size, every other program header and every byte outside the table is as it was |
| EhWriter.FinishReads | oracle/obfuscation/lying.py:283-288 | the two section headers read back as given, no other section header changes, and nothing outside the header tables does |
| EhWriter.InPlaceRewrites | oracle/obfuscation/lying.py:276-288 | the in-place branch leaves both tables printed for their old addresses, zeros behind them to their old ends, and every byte elsewhere as it was |
| EhWriter.MovedRewrites | oracle/obfuscation/lying.py:263-288 | the moved branch leaves both tables printed for the fresh address they were mapped at, the header first and the records at the next multiple of eight, zeros where the old tables were, and every old byte elsewhere as it was |
| EhWriter.TableLength | oracle/obfuscation/lying.py:263-268 | the number of table entries, hence the room taken for the header, does not depend on the address |
| EhWriter.WrittenImage | oracle/obfuscation/lying.py:256-288 | re-reading the image gives exactly the records passed in; the header section holds their search table; if and only if both tables fit in their sections they stay where they were, the file keeps its length and no program header is taken; otherwise the one new load segment, which is given field by field, holds both; of the two section headers only addresses, offsets and sizes change; every other program header is as it was, but that each `PT_GNU_EH_FRAME` names the header section; load segments in order stay in order; the old tables are zero where the new ones are not; the file header, every lookup by name, every other section header and every byte outside the two tables and the header tables are unchanged |
| EhWriter.WriteSucceeds | oracle/obfuscation/lying.py:256-288 | on a regular image it succeeds if and only if both tables print at their addresses, and either fit there, with nothing else asked for, or can move: a spare header behind the load segments, tables that print at the new addresses, numbers of 64 bits |
| EhWriter.SegmentsKept | oracle/obfuscation/lying.py:285-288 | every program header of the unwind header names the header section's offset, address and size and keeps its flags and alignment; every other one but a spare entry is as it was |
| SmallImage.FittingImage | oracle/obfuscation/lying.py:276-288 | the layout asked for is met by an image with a load segment, an unwind header and a note, and a CIE and an FDE that fit it to the byte are written in place |
| SmallImage.OutgrownImage | oracle/obfuscation/lying.py:263-288 | the same image with one byte less for the records: both tables move |
| SmallImage.EscapeUnread | oracle/obfuscation/lying.py:193-244 | a CIE and an FDE with a length field of 0xFFFFFFFF print at every address and do not read back |
| EhWriter.Elf.constructor | oracle/obfuscation/lying.py:58-63 | the file as loaded, with what its header says about its tables |
| EhWriter.Elf.WritePhdr | oracle/obfuscation/lying.py:72-73 | the buffer becomes the one with that program header, or is untouched when a value does not fit |
| EhWriter.Elf.UpdateSection | oracle/obfuscation/lying.py:94-97 | the buffer becomes the one with that section header, or is untouched when a value does not fit |
| EhWriter.Elf.Append | oracle/obfuscation/lying.py:102-107 | the file grows by padding to the alignment and the data, at the offset returned |
| EhWriter.Elf.MapNew | oracle/obfuscation/lying.py:109-130 | the new load segment, its address and its offset, or a refusal, exactly as `NewLoadSegment` says |
| EhWriter.Elf.PointSegments | oracle/obfuscation/lying.py:285-288 | the loop over the program headers as they were when it began does what `PointFrom` says |
| EhWriter.Elf.MoveTables | oracle/obfuscation/lying.py:263-275 | the moved branch step by step; the new segment always gets the address its tables were printed for, so the refusal for another one is never reached |
| EhWriter.Elf.WriteRecords | oracle/obfuscation/lying.py:256-288 | the whole of `write_eh` on the buffer succeeds exactly when `WriteEh` does and leaves its image |
| FdeEdits.BoundaryInside | oracle/obfuscation/lying.py:386-399 | the boundary is an instruction strictly inside the function, nearest its middle among all but the first; the other address is inside the instruction of two bytes or more nearest it |
| FdeEdits.NearMiddleIs | oracle/obfuscation/lying.py:386-399 | a boundary is found if and only if the function has two instructions, one of two bytes or more, and it is then the instruction behind the first that is nearest the middle, the lower of two |
| FdeEdits.ReadBefore | oracle/obfuscation/lying.py:402-421 | the loop over the functions gives the targets of `Targets` |
| FdeEdits.TargetsGood | oracle/obfuscation/lying.py:402-421 | every target's extent is stated by an FDE, its boundary is strictly inside, its next function starts behind it and is stated too, and targets ascend |
| FdeEdits.TargetsExactly | oracle/obfuscation/lying.py:402-421 | a function is a target if and only if an FDE states exactly its extent and it has such a boundary, and its next function is the one behind it if and only if an FDE states that one too |
| FdeEdits.FalseFdeSize | oracle/obfuscation/lying.py:221-225 | a false record's rest is the same eight zero bytes whether its CIE has a `z` or not, and the record has 24 bytes |
| FdeEdits.EditFdes | oracle/obfuscation/lying.py:437-456 | the loop replaces the FDE of each chosen function, keeps every other record, and records what it planted |
| FdeEdits.EditKeeps | oracle/obfuscation/lying.py:437-508 | record by record and in order: one that is not hit stays; a hit FDE keeps its CIE and everything behind its range, over the range the lie gives it; the second claim of an added or split one has its CIE and eight zero bytes; a dropped one leaves nothing; the CIEs are the same |
| FdeEdits.TouchedExactly | oracle/obfuscation/lying.py:437-456 | each chosen function is edited once, and no other |
| FdeEdits.TouchedAt | oracle/obfuscation/lying.py:437-456 | what was planted is recorded in the order of the records |
| FdeEdits.EditedCoverage | oracle/obfuscation/lying.py:459-508 | for every address, the count of FDE ranges holding it changes by the sum of what the lie states of each edited function |
| FdeEdits.EditChangesCoverage | oracle/obfuscation/lying.py:437-508 | with distinct FDE starts that sum is over exactly the chosen functions: add +1 on [boundary, end), split 0, repoint -1 on [start, boundary), short -1 on [boundary, end), long +1 on [end, next end), dropped -1 on all of it |
| FdeEdits.SiteIsWhereItLies | oracle/obfuscation/lying.py:459-508 | the site recorded for a planted lie is in its function, strictly inside unless it is dropped, where the stated coverage changes or the two halves of a split meet; of a range run on, the first byte of the next function, now also covered |
| FdeEdits.AcceptsExactly | oracle/obfuscation/lying.py:685-694 | given removed within the ranges before, `verify` accepts if and only if the ranges now are those before less the removed, with the added |
| FdeEdits.EditRanges | oracle/obfuscation/lying.py:437-508 | every edit leaves exactly the ranges there were, less those it says it removed, with those it says it added |
| FdeEdits.EditVerifies | oracle/obfuscation/lying.py:685-694 | `verify` accepts what every edit leaves |
| FdeEdits.UneditedFails | oracle/obfuscation/lying.py:685-694 | for disjoint functions, `verify` rejects the unedited file whenever something was planted |
| LyingTables.EligibleIs | oracle/obfuscation/lying.py:442 | a lie can be told of every target, `fde_long` of those with a next function |
| LyingTables.ChosenAscend | oracle/obfuscation/lying.py:424-426 | the chosen share of ascending targets ascends and consists of targets |
| LyingTables.EditedReadable | oracle/obfuscation/lying.py:437-508 | what an edit makes of readable records is readable |
| LyingTables.LieIsAsStated | oracle/obfuscation/lying.py:437-508 | from a regular image to the written one, for every lie and every choice of good targets: it reads back as the edited records, `verify` accepts it, each chosen function was edited once, every other record is kept and the edited ones keep their CIE and call-frame instructions, the coverage of every address changed as stated, the program headers are kept but for the unwind tables, and no byte outside the tables changed |
| LyingTables.LieFromFunctions | oracle/obfuscation/lying.py:402-508 | the same from the functions, the stated ranges and the instructions, for every share p/q: exactly the floor of the share of the targets (for `fde_long`, of those with a next function) is lied about, and the image is as stated |
| LyingTables.EditImage | oracle/obfuscation/lying.py:437-456 | reading, choosing, editing and writing leave the image and the planted records the functions give, and raise exactly when those do |
| ReleaseProtocol.PublishKeeps | scripts/release.py:376-395 | whatever fails in a run: a release exists only behind its pushed tag, a public one is left as it is, a run is refused exactly on a changed work tree or a tag at another commit, of a release that cannot be told or a public one, only a clean run makes a release public, and one that reports success made its own |
| ReleaseProtocol.PublishOutcome | scripts/release.py:333-395 | when a run is refused, when it succeeds and when it fails, each as an equivalence with the state and the steps, and what each leaves of the tag, the push and the release |
| ReleaseProtocol.UploadLeaves | scripts/release.py:388-391 | a failed upload into a draft leaves this run's files where they got up and the old ones that are not gone |
| ReleaseProtocol.PublicIsWhole | scripts/release.py:376-395 | over any runs at any commits with any failures, a release is public only with its tag pushed at the commit of the run that made it public, a run with a clean work tree, with every file of that commit's release, all from that run |
| ReleaseProtocol.PublicIsFinal | scripts/release.py:343-352 | no later run changes a public tag, its release or a file of it |
| ReleaseProtocol.FairRunPublishes | scripts/release.py:376-395 | from every safe unpublished state a run at the tag's commit with nothing failing ends public with its own files |
| ReleaseProtocol.AnotherRunFinishes | scripts/release.py:355-395 | whatever earlier runs left unpublished, the same command run again from the same commit with nothing failing finishes it |
| ReleaseProtocol.RecoveryText | scripts/release.py:355-373 | after a failed run a client can see the release if and only if the last step failed after taking effect |
| ReleaseProtocol.PublicThoughFailed | scripts/release.py:355-395 | a first run whose last step takes effect and is reported as failed: the run failed and the release is public with its files |
| ReleaseProtocol.Forge.constructor | scripts/release.py:376-380 | before any run: no tag, nothing pushed, no release |
| ReleaseProtocol.Forge.CheckExistingTag | scripts/release.py:343-352 | refused exactly when the tag is at another commit, the release's state cannot be told, or it is published; otherwise whether there is a draft |
| ReleaseProtocol.Forge.PublishTag | scripts/release.py:376-395 | the steps in order leave the world and the outcome `Publish` gives, and a safe world safe |
| ReleaseKeys.GateExactly | scripts/release.py:106-168 | the gate opens if and only if the built-in key signs and every other plain tag is below the version, its key file could be looked at, and the key it holds signs too or stranding was asked for |
| ReleaseKeys.KeyAtReads | scripts/release.py:118-136 | a file holds a key exactly when its text is 64 hex digits; the key is their value in lower case |
| ReleaseKeys.VersionOrder | scripts/release.py:106-115 | plain versions are ordered by their numbers, the first that differs deciding |
| ReleaseKeys.GateMeans | scripts/release.py:153-168 | past the gate, every plain tag is the version's own or below it, and every readable key of one is among the signers |
| ReleaseKeys.KeysCarryOver | scripts/release.py:106-168 | over every sequence of plain releases without `--strand-older-copies`: each is signed by its own built-in key and by the built-in key of every earlier attempt; versions never fall and rise above every completed one |
| ReleaseKeys.OldKeysCarryOver | scripts/release.py:138-168 | every readable key of a plain tag there was at the start is among the signers of every later release, which is not below that tag |
| ReleaseKeys.SuffixedTagsAreUnseen | scripts/release.py:111-115 | a suffixed tag, whatever it holds, never changes the gate's answer |
| ReleaseKeys.SuffixedReleaseStranded | scripts/release.py:106-168 | so a release below a published suffixed one, signed by another key alone, goes out |
| BehaviourVerdict.SignKept | oracle/decomp-behaviour/harness.c:123 | sign extension keeps the number the bits stand for and fits the wider type |
| BehaviourVerdict.Harness | oracle/decomp-behaviour/harness.c:90-149 | the loop over the inputs, with its early end at the sixth crash, ends with the counters of `RunFrom` |
| BehaviourVerdict.FullImpliesLow | oracle/decomp-behaviour/harness.c:95-139 | agreement in full width is agreement in the low bits, and agreement in the low bits alone needs a body narrower than the source |
| BehaviourVerdict.ClassMeans | oracle/decomp-behaviour/harness.c:112-149 | what each input is counted as, by the numbers the source and the body return, the buffers, the texts and the NaNs |
| BehaviourVerdict.CountersAddUp | oracle/decomp-behaviour/harness.c:99-149 | the counters add up to the inputs the loop got to |
| BehaviourVerdict.ReachedExactly | oracle/decomp-behaviour/harness.c:116 | the loop gets to every input, or up to the first on which the body stopped and which is at least the sixth crash |
| BehaviourVerdict.CountersExact | oracle/decomp-behaviour/harness.c:99-149 | each counter is the number of inputs of its class among those the loop got to, and the buffer counter the number of those whose buffers differ |
| BehaviourVerdict.CountersTell | oracle/decomp-behaviour/harness.c:99-151 | a crash on any input is counted; without one each counter is positive exactly when its kind of input occurs, and each extension flag holds exactly when its rule holds of every compared input |
| BehaviourVerdict.LabelsExactly | oracle/decomp-behaviour/behave.py:428-443 | each label over every list of inputs, as an equivalence with what occurs in the list |
| BehaviourVerdict.LabelsMean | oracle/decomp-behaviour/behave.py:428-443 | each label as an equivalence over every input's numbers, buffers, texts and stops |
| BehaviourVerdict.Outcome | oracle/decomp-behaviour/behave.py:428-434 | which reports give a label without counters, and no others |
| BehaviourVerdict.SameMeans | oracle/decomp-behaviour/behave.py:428-443 | `same` if and only if on every input the original stopped, or the texts are equal, or the number the body's declared type gives is the source's modulo 2 to the source's width and all buffers agree |
| BehaviourVerdict.SameBuffers | oracle/decomp-behaviour/harness.c:126-136 | in a list judged `same` a buffer differs if and only if one compared as text has a buffer that does |
| BehaviourVerdict.SameWithBuffersDifferent | oracle/decomp-behaviour/harness.c:126-135 | equal texts are `same` whatever the buffers hold |
| BehaviourVerdict.SameExtMeans | oracle/decomp-behaviour/behave.py:428-443 | `same_ext` and `narrow` need a body narrower than the source and equal buffers; it is `same_ext` if and only if on every compared input the source's value is the body's bits, or on every one its signed value is theirs |
| BehaviourVerdict.SameWithNothingCompared | oracle/decomp-behaviour/behave.py:428-443 | the verdict is `same` when the original stopped on every input |
| IntegerRoot.Isqrt | oracle/decomp-behaviour/heldout.c:16 | for every 32-bit input the loops end, no sum wraps, and the result r has r*r <= x < (r+1)*(r+1) |
| IntegerRoot.InRange | oracle/decomp-behaviour/heldout.c:16 | neither `r + b` nor `(r >> 1) + b` leaves 32 bits at any turn |
| Extents.MergeSpans | oracle/obfuscation/lie_score.py:75-82 | the loop that widens the last interval gives the merged list of the sorted spans |
| Extents.MergedKeeps | oracle/obfuscation/lie_score.py:75-82 | merging keeps exactly the addresses covered and leaves ascending intervals with a gap behind each |
| Extents.FastFormExact | oracle/rule-accuracy/truth.py:95-108 | for every list of spans, in any order, overlapping, empty or inverted, bisecting the merged list holds an address if and only if some span does |
| Extents.SpeaksOfIs | oracle/obfuscation/lie_score.py:62-74 | what is collected of a contradiction is what it speaks of: the starts and extents of an overlap, a start and every address below any of its ends, an address with two names |
| Extents.Warnings.constructor | oracle/obfuscation/lie_score.py:51-88 | `covers` is true of exactly the addresses a contradiction names and those in an extent one doubts |
| Extents.FindContaining | oracle/rule-accuracy/score.py:91-102 | the backward scan with its early stop gives what `Containing` gives |
| Extents.ScanReaches | oracle/rule-accuracy/score.py:91-102 | the scan answers for all extents from where it stopped, and stops early only at the first one that starts more than 1 MiB below |
| Extents.EarlyStopExactly | oracle/rule-accuracy/score.py:91-102 | the answer is the full scan's if and only if every extent out of reach that holds the address is outranked by one within reach |
| Extents.EarlyStopExact | oracle/rule-accuracy/score.py:91-102 | with no extent longer than 1 MiB and a byte, the answer is the full scan's: the last owned extent holding the address, or where none is owned the last one |
| Extents.ContainingExact | oracle/rule-accuracy/score.py:75-102 | over extents in any order, it answers exactly when one holds the address strictly inside, with an owned one when there is one |
| Extents.EarlyStopMisses | oracle/rule-accuracy/score.py:91-102 | a longer extent behind a nearer start is missed |
| Scoring.ClassifyMeans | oracle/rule-accuracy/score.py:104-113 | each class as an equivalence: a function's start first, then a fragment's, then a PLT head, and of the rest those inside an extent and those outside all |
| Scoring.RowsAre | oracle/rule-accuracy/score.py:194-246 | the rows are the answered starts in order, each with its class and kind of source |
| Scoring.ScoreRows | oracle/rule-accuracy/score.py:185-246 | one row per answered start with its class; the class counter holds the number of rows of each class |
| Scoring.ClassesAddUp | oracle/rule-accuracy/score.py:104-113 | every row falls in exactly one class |
| Scoring.ScoreTiers | oracle/rule-accuracy/score.py:259-279 | the loop counts, per tier, the truth, the found and the missed, and collects the missed starts |
| Scoring.FoundPlusMissed | oracle/rule-accuracy/score.py:259-279 | per tier, found plus missed is the truth |
| Scoring.TierCountIs | oracle/rule-accuracy/score.py:259-279 | the counts of a tier are the numbers of its starts found and missed |
| Scoring.MovedStart | oracle/rule-accuracy/calibrate.py:74-95 | moving one answered true start to a fresh interior address gives one fewer true and one more interior start, of its own kind of source, changes no other class, and adds exactly that start to the missed ones |
| Scoring.MovedByOne | oracle/rule-accuracy/calibrate.py:92 | a start moved by a byte lies inside its own function, where that is longer and no other owned extent starts with it |
| Share.ShareExact | oracle/obfuscation/transforms.py:66-71 | exactly floor(count * p/q) indices are chosen |
| Share.BlockShare | oracle/obfuscation/transforms.py:66-71 | every block of consecutive indices holds the floor or the ceiling of its own share |
| Share.ChosenAt | oracle/obfuscation/lying.py:424-426 | the chosen items are those at the chosen indices, in order |
| Share.RoundedWhen | oracle/obfuscation/transforms.py:66-71 | the count is the nearest whole number, of two the even one, if and only if the remainder of count * p by q is below half of q, or is half and the floor is even |
| Share.HalfOfThree | oracle/obfuscation/transforms.py:66-71 | half of three is one here, and two rounded |
| JunkTwin.FuncRegions | oracle/obfuscation/transforms.py:79-94 | the loop over the lines gives the regions of `ScanTo` |
| JunkTwin.RegionsExact | oracle/obfuscation/transforms.py:79-94 | the regions are exactly the stretches from a start directive to the next start or end when that is an end, in order and apart |
| JunkTwin.RegionLabels | oracle/obfuscation/transforms.py:79-94 | a region carries the last label before its end |
| JunkTwin.LabelOfFunction | oracle/obfuscation/transforms.py:79-94 | a region goes by the nearest label in front of it if and only if no line of it is a label or the last one that is carries that label |
| JunkTwin.LocalLabelTaken | oracle/obfuscation/transforms.py:79-94 | a function with a label inside goes by that label |
| JunkTwin.LabelMeans | oracle/obfuscation/transforms.py:61 | a line is a label exactly when it begins with a name of the allowed characters and a colon |
| JunkTwin.BeginsMeans | oracle/obfuscation/transforms.py:57-63 | a pattern matches the lines whose first symbol is the word, or the word with a dot or a dollar behind it, and no others; such a line is that instruction exactly when no dot, dollar or colon follows |
| JunkTwin.TransferMeans | oracle/obfuscation/transforms.py:57-58 | a line is taken for a transfer exactly when the word its text begins with is one of the three or the five mnemonics |
| JunkTwin.LabelMatches | oracle/obfuscation/transforms.py:57-58 | the label `ret:` is matched as a transfer |
| JunkTwin.ConditionalBranchMatches | oracle/obfuscation/transforms.py:54-58 | a conditional `b.eq` is matched as an unconditional transfer |
| JunkTwin.JunkAfterTransfers | oracle/obfuscation/transforms.py:97-143 | the loops give the lines woven with a block behind each transfer of a chosen labelled function, in both files, and the label pairs planted |
| JunkTwin.PlanMeans | oracle/obfuscation/transforms.py:97-121 | a line gets a block if and only if it is such a transfer strictly inside a region that has a label before its end and that the share, counted over the regions, takes |
| JunkTwin.TwinsDiffer | oracle/obfuscation/obf_calibrate.py:112-135 | the file and its twin have equal line counts and differ only on the line between the two labels of one planted pair |
| JunkTwin.TwinsAlign | oracle/obfuscation/obf_calibrate.py:112-135 | under any size of lines that gives the two fillings one size, every line is at the same address in both |
| JunkTwin.ErasedIsInput | oracle/obfuscation/transforms.py:97-143 | for every text, taking the planted lines out gives the input back |
| JunkTwin.LowDistinct | oracle/obfuscation/transforms.py:121-129 | no label is planted twice |
| JunkTwin.LowIsNotHigh | oracle/obfuscation/transforms.py:121-129 | no label is the first of a pair and the second of one |
| JunkTwin.TwinIsSound | oracle/obfuscation/transforms.py:97-143 | for every text, either architecture and every share: aligned; every planted pair is in both files, with 0xE8 in the one and 0x90 in the other on x86 and one word in both on AArch64; no other difference; and both give the input back when the planted lines are taken out, by the labels alone in a text that holds none of them |
| WindowsArguments.LineReadsBack | scripts/windows_sweep.py:73-88 | for every list of arguments, the documented backslash and quote rules read the line back as exactly that list |
| WindowsArguments.WordRead | scripts/windows_sweep.py:73-88 | one written argument reads back, whatever it holds, up to the blank or the end behind it |
| WindowsArguments.WordIsItself | scripts/windows_sweep.py:76-79 | an argument goes without quotes exactly when it is not empty and holds neither white space nor a quote |
| WindowsArguments.QuoteArgument | scripts/windows_sweep.py:80-87 | the loop that holds backslashes back writes the quoted form |
| WindowsArguments.WinArgv | scripts/windows_sweep.py:73-88 | the line the loops build reads back as the arguments |
| Base64Wire.AlphabetIs | scripts/windows-sweep/wrun.c:19 | a character's value is its place in the alphabet of table 1 of RFC 4648 |
| Base64Wire.Decode | scripts/windows-sweep/wrun.c:21-34 | for every text the bytes and their terminator fit n/4*3+4, and the bytes are those of the recursive decoding |
| Base64Wire.DecodedSize | scripts/windows-sweep/wrun.c:21-34 | eight bits a byte never exceed six bits a character |
| Base64Wire.OthersPassedOver | scripts/windows-sweep/wrun.c:26-27 | characters outside the alphabet change nothing |
| Base64Wire.TwoTaken | scripts/windows-sweep/wrun.c:25-30 | whatever the wrapping accumulator held, a byte given out depends on the last two characters only |
| Base64Wire.EncodedDecodes | scripts/windows-sweep/wrun.c:21-46 | for every byte sequence, and whatever the accumulator held before, decoding what was encoded gives it |
| Base64Wire.PutEncoded | scripts/windows-sweep/wrun.c:36-46 | the loop writes the groups of section 4 of RFC 4648 and a line end, and it decodes to the bytes |
| Base64Wire.QuadIsNumber | scripts/windows-sweep/wrun.c:39-42 | the four characters are the digits to base 64 of the group's number, highest first, with `=` for those past its bytes |

## Left out

- The decompiler, the update client, the supervisor and the debugger: their source is not part of this model.
- The symbol lies (`write_symtab`, `add_symbols`, `set_symbol_sizes`, `swap_exports`, `sym_*`, `exports`) and their part of `verify`: the same kind of edit on a simpler table.
- `noeh` at full intensity, and everything that calls `objcopy`, `readelf` or `objdump`: foreign programs. The ranges `verify` reads are taken to be those of the records.
- Section names are compared as bytes: a name that is not UTF-8, which the editor would refuse, is not distinguished.
- An image whose header tables do not lie in the file or have entries shorter than ELF64's: `TablesIn` and `Regular` ask for a well-formed layout.
- EhWriter.Elf.WriteRecords: asks for the two unwind sections to lie in the file, because past its end a slice assignment would grow the buffer instead.
- A record list that lists one CIE object twice: nothing in the editor makes one, and records name a CIE by its ordinal.
- The ratio `intensity` as a floating-point number: it is a fraction p/q here, so the rounding of the product is not modelled.
- Text of the assembler file into lines and back, and the guess which architecture it is for: the rewrite is stated on lines, for either answer. `\w` is ASCII.
- Version and tag text: `ReleaseKeys` takes versions as numbers with a suffix, so two spellings of one number are not distinguished; signing, key files and key paths are abstract.
- What `main` refuses before `publish` (the Windows sweep, the built binaries, the changelog): refusals with no effect on the tag or the release.
- The generator of the harness's inputs, signals, timers and the moving of a returned pointer to the copy's buffers: an input is what it came to. Masks of low bits are remainders modulo a power of two.
- Return widths above 64 bits: the body table has none.
- The other functions of the held-out corpus: small loops whose claims would be easy.
- Names, ends and per-source tallies of the scorer, and the sets of `lie_score.py`: counting of the same kind as what is modelled.
- `Warnings` of a refused `contradictions`: the same as of an empty list.
