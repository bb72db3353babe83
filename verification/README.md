# CHIPSEC hardware-abstraction layer: a verified model

CHIPSEC inspects platform firmware. Its hardware-abstraction layer walks page tables, cuts firmware images into
volumes, files and sections and edits them, decodes S3 boot scripts, signature databases and SMBIOS tables, and drives
the SPI flash controller and the TPM. This project models the algorithms at the bottom of that layer, byte for byte and
bit for bit, and proves what they compute. `dafny verify dfyconfig.toml` checks the whole project.

## How it is organised

| files | what they model |
|---|---|
| `Translation`, `PageTables`, `WalkIndex`, `DirectWalk`, `PhysicalView` | the 4-level page-table reader, its flattened index, lookups in both directions, `map_bigpage_1G` (`chipsec/hal/paging.py`) |
| `SdmWalk` | entries and walks once more, in plain arithmetic on the SDM's bit positions, and the proof that the reader's are the same |
| `FvWalk`, `FvAssemble` | firmware volume, file and section walkers, checksums, assemblers (`chipsec/hal/uefi_fv.py`) |
| `FvLayouts` | volume, file and section headers as literal byte layouts, packed and read back |
| `FvEdit`, `FvRun`, `FvLocal` | `modify_uefi_region`: one volume, whole runs, conditions on the original image (`chipsec/hal/spi_uefi.py`) |
| `FvRestore`, `FvRoundTrip`, `FvGapless` | undoing an insertion: one volume and whole images, exactly |
| `FvWitness`, `FvCounter` | one-volume images, and concrete images on which the editor does not conserve, restore or end |
| `S3Codec`, `S3Script` | S3 boot-script encoders, decoders, streaming parser |
| `S3Layouts` | every boot-script instruction byte by byte, in both formats |
| `SigDb`, `Smbios` | signature lists; SMBIOS structures and strings |
| `Spi`, `Tpm` | chunked flash access; the TPM FIFO burst protocol |
| `Options`, `Bits`, `Bytes`, `Structs` | bitwise operators, Python slices, `struct` formats |

Conventions. `&`, `|`, `~` and shifts are functions on naturals defined bit by bit (`Bits`); lemmas turn masks into
quotients and remainders. Slices clamp their bounds as Python's do. `struct.pack` of a value that does not fit, a
failing `struct.unpack`, a missing dictionary key and an index out of range raise in Python; here they are `None`,
`Raised` or `Fails`. A GUID is its 16 stored bytes, and `bytestostring` is one character per byte. Physical memory is a
map from page address to 512 qwords. A Python dictionary keeps its insertion order. `hide` statements in proofs only
keep irrelevant definitions from the verifier.

The standards behind the code: 4-level paging in section 4.5 of the Intel SDM volume 3A, sections 3.2.1 to 3.2.4 of
the UEFI PI Specification volume 3 (volumes, files, sections), the S3 Resume chapter of its volume 5, section 32.4.1 of
the UEFI Specification (signature lists), section 6.1 of DMTF DSP0134 (SMBIOS).

## Where the code departs from what one would expect

Each of these is stated by a theorem, as an exact condition wherever it says "exactly".

- The reader collapses a table of 512 equal entries to its first one. The index loses a mapped address exactly when its
  path needs another entry of such a table (`WalkIndex.TranslationAgrees`; `WalkIndex.MappingLost` gives a machine). The
  direct lookup raises there instead, and keeps virtual address bits 52 and up in its answer
  (`DirectWalk.ReadEntryIsWalk`).
- `map_bigpage_1G` reads the PDPT through second-level translation but writes it at the untranslated address.
- A reverse lookup masks the address to its 4KB frame, so it finds a 2MB or 1GB page only from the page's first 4KB
  (`PhysicalView.ReverseLookup`); `get_pages_by_physaddr` finds it from everywhere.
- The editor's file padding uses a 32-bit mask, so its size arithmetic is right exactly for files below 4 GB
  (`FvEdit.PaddingExact`). A longer file is still spliced correctly at a single match (`FvEdit.SpliceOneMatch`), but not
  at two (`FvCounter.LongFileMisplaced`).
- `FvEndOffset` is only updated by files of at least 24 bytes and survives from one volume to the next. The final pad or
  trim falls inside the volume if the length does not change or some file has at least 24 bytes and the last such file,
  shifted, ends inside the volume (`FvEdit.Fits`). For removal this is exact: it conserves the image if and only if
  nothing matches or some file has at least 24 bytes (`FvEdit.RemovalConservesExactly`). Otherwise the padding can land
  in front of the whole image (`FvWitness.ShortFileMisplaced`). Removal keeps the image length without the condition.
- The editor need not end: on a concrete 96-byte image every inserted file brings the next matching volume, and each grows
  past the end of the image (`FvCounter.Endless`).
- The 64-bit size of a large file is read where the search began, not at the file. A header that is skipped still ends
  the search when its size no longer fits. An insertion moves such a header towards the end of the volume, so a file
  behind it may no longer be found, and the removal then stops too early. A volume is restored exactly when every file
  is still the next one found in the volume shortened by what was inserted before it, and at least one byte follows the
  header of each inserted file (`FvRestore.RestoredExactly`); an image is restored exactly when this holds in all its
  volumes (`FvRoundTrip.RestoresExactly`). Eight erased bytes between two files can already break it
  (`FvWitness.NotRestored`); volumes without gaps are restored down to the last byte of free space
  (`FvGapless.GaplessRoundTrip`).
- A file may claim fewer bytes than its own header has. The restore theorems allow such files unless they match. A matching
  one is lost: the inserted file overwrites the rest of its header (`FvCounter.ShortMatchLost`). Behind a match such a
  file is trimmed away when it is the last one (`FvCounter.ShortFileTrimmed`); erased free space excludes that, because
  the state byte of a shorter last file lies in it (`FvRestore.ErasedLastIsBig`).
- A volume search resumes at the end of the last volume but looks for the signature 40 bytes into the header, so the next
  header may begin up to 40 bytes inside the last volume. Whole-image theorems ask that no signature within 40 bytes
  behind a volume belongs to a header that begins inside the bytes the edit changes (`FvLocal.Undisturbed`).
- A raw or compression section reads back exactly when its length stays below the extended-size marker; a file exactly when it is not
  empty and below 16 MB.
- A default-format boot script reads back exactly when the low byte of its first index is not 0xAA.
- Four rows of `sig_types` have lower-case keys and never match. A comment promises that leading zeros are skipped, but
  they end the parse. The last signature of a list of bare owners is lost (`SigDb.BareOwnerLost`).
- The last SMBIOS structure is dropped exactly when it has no strings; that is the usual end-of-table structure
  (`Smbios.EndOfTableDropped`). Asking for a type raises if a malformed structure is shorter than its header.
- SPI error flags are cleared before they are read, so a cycle that ends is always reported as good.
- A TPM command shorter than its declared size is sent whole and then raises without the go (`Tpm.SendCommand`).

## Model

| member | source | states |
|---|---|---|
| `Translation.GetTranslationMeaning` | chipsec/hal/paging.py:53-67 | on a non-empty index of aligned pages a lookup answers from the recorded page whose virtual interval covers the address, 4KB before 2MB before 1GB, plus the offset in the page |
| `PageTables.FieldIsIndex` | chipsec/hal/paging.py:188-189 | masking a 9-bit field out of an address is the table index of that level |
| `PageTables.CanonicalMeaning` | chipsec/hal/paging.py:183-186 | sign extension of bit 47 (none for EPT) is the canonical form of a 48-bit address |
| `PageTables.VirtAddrMeaning` | chipsec/hal/paging.py:284-289 | or-ing the four shifted indices gives the sum of the regions they select |
| `PageTables.LeafAligned` | chipsec/hal/paging.py:346-386 | a page entry's address is aligned to its size and the size is what one entry of that level spans |
| `PageTables.PageTableReader.ReadEntries` | chipsec/hal/paging.py:194-205 | the 512 entries behind second-level translation, or one entry if all are equal |
| `PageTables.PageTableReader.PrintEntry` | chipsec/hal/paging.py:291-306 | records the page under its canonical address when it has an attribute, and nothing else changes |
| `PageTables.PageTableReader.ReadPt` | chipsec/hal/paging.py:378-386 | extends the index by exactly the pages of one page table |
| `PageTables.PageTableReader.ReadPd` | chipsec/hal/paging.py:362-376 | extends the index and the table names by exactly what lies below one page directory; fails exactly when a table below is unreadable |
| `PageTables.PageTableReader.ReadPdpt` | chipsec/hal/paging.py:346-360 | the same for a page-directory-pointer table |
| `PageTables.PageTableReader.ReadPml4` | chipsec/hal/paging.py:323-332 | the same for the top table |
| `PageTables.PageTableReader.ReadPageTables` | chipsec/hal/paging.py:308-315 | rebuilds index, table names and pointer from nothing: the index holds exactly the pages below the root |
| `PageTables.PageTableReader.MapBigPage1G` | chipsec/hal/paging.py:511-522 | overwrites exactly one qword of the PDPT, skips an absent PML4 entry, raises exactly on an unreadable or collapsed table |
| `WalkIndex.CollapseLoses` | chipsec/hal/paging.py:194-205 | the walk over collapsed tables is the full 512-entry walk, except that exactly the addresses needing a dropped entry are lost |
| `WalkIndex.PagesLookup` | chipsec/hal/paging.py:346-386 | a key is in the index exactly when a walk finds a page starting there, and holds that page |
| `WalkIndex.WalkSamePage` | chipsec/hal/paging.py:346-386 | all addresses of one page walk to the same page |
| `WalkIndex.CoveringIsWalk` | chipsec/hal/paging.py:50-67 | the index holds a page of a size covering an address exactly when the address is canonical and its walk ends in a page of that size |
| `WalkIndex.IndexAnswers` | chipsec/hal/paging.py:53-67 | for every 64-bit address a lookup is the indexed walk's answer, and nothing for a non-canonical address |
| `WalkIndex.TranslationAgrees` | chipsec/hal/paging.py:53-67 | for every canonical address the index equals the hardware walk if and only if the address is unmapped or no table on its path was collapsed past entry 0; a lost mapping reads as unmapped |
| `WalkIndex.TranslationIsWalk` | chipsec/hal/paging.py:308-386 | with no 512 identical present entries on the path, index and hardware walk agree on every address |
| `WalkIndex.NamesMeaning` | chipsec/hal/paging.py:308-386 | the reader names exactly the root and the child tables that the walk of some 48-bit address meets |
| `WalkIndex.MappingLost` | chipsec/hal/paging.py:200-204 | a concrete machine that the reader reads and records a page for, whose hardware maps 0x1000 while the index does not |
| `SdmWalk.PresentMeaning` | chipsec/hal/paging.py:432-433 | bit 0 of an entry says present; for EPT (line 495) any of bits 0 to 2 does |
| `SdmWalk.BigPageMeaning` | chipsec/hal/paging.py:435-436 | bit 7 says that the entry maps a page, in all flavours |
| `SdmWalk.AttrMeaning` | chipsec/hal/paging.py:438-441 | the attribute text for every entry: bits 1 and 2, and for EPT (line 501) bits 0 to 2 and 3 to 5 |
| `SdmWalk.DecodeMeaning` | chipsec/hal/paging.py:346-386 | which entries of which level are absent, map a page of which size at which address, or lead to which table, by arithmetic on the entry alone |
| `SdmWalk.CanonicalIs` | chipsec/hal/paging.py:183-186 | the canonical addresses are the lowest and the highest 2^47 of 2^64; for EPT all below 2^48 |
| `SdmWalk.WalkIsTranslation` | chipsec/hal/paging.py:323-386 | without second-level translation the walk is an independent 4-level translation written in quotients and remainders |
| `SdmWalk.IndexTranslates` | chipsec/hal/paging.py:53-67 | the index gives that translation for a canonical address if and only if the address is unmapped or no table on its path was collapsed past entry 0 |
| `DirectWalk.ReadEntryIsWalk` | chipsec/hal/paging.py:388-417 | the direct lookup is the hardware walk's page plus offset with virtual bits 52 and up kept; it raises exactly on an unreadable or collapsed table of the path |
| `DirectWalk.LookupsAgree` | chipsec/hal/paging.py:388-417 | where it does not raise, the direct lookup and the index agree in the low 52 bits, on mapped and on unmapped addresses |
| `DirectWalk.BigPageAddress` | chipsec/hal/paging.py:511-522 | the written entry's 1GB address is i shifted by 30, whatever was there before |
| `DirectWalk.BigPageFlags` | chipsec/hal/paging.py:511-522 | the written entry is present and a big page |
| `SdmWalk.BigPageBits` | chipsec/hal/paging.py:520 | every bit of the written entry: 0 to 2 and 7 set, the index from bit 30 on, the old bits elsewhere below 12 and from 52 on |
| `DirectWalk.OtherWalksKept` | chipsec/hal/paging.py:511-522 | overwriting a qword changes no walk that does not read it |
| `DirectWalk.BigPageMapped` | chipsec/hal/paging.py:511-522 | afterwards every address with that PML4 index and PDPT index i walks to a 1GB page at i shifted by 30 |
| `PhysicalView.GetPagesByPhysAddr` | chipsec/hal/paging.py:69-77 | the pages in the frame of the address, in order; fails exactly when a 4MB page is recorded |
| `PhysicalView.FrameIsInterval` | chipsec/hal/paging.py:69-77 | for aligned pages the masked comparison is containment in the physical interval, in both directions |
| `PhysicalView.InFrameMembers` | chipsec/hal/paging.py:69-77 | a page is returned exactly when it is recorded and in the frame |
| `PhysicalView.InFrameInOrder` | chipsec/hal/paging.py:69-77 | pages are found in the order in which they were recorded |
| `PhysicalView.KeptMeaning` | chipsec/hal/paging.py:86-90 | one recorded page is kept for every distinct physical base and for no other |
| `PhysicalView.KeptIsLast` | chipsec/hal/paging.py:88 | the page kept for a base is the last one recorded for it |
| `Translation.PageBytes` | chipsec/hal/paging.py:87 | the sizes of the pages |
| `PhysicalView.ExtendStep` | chipsec/hal/paging.py:91-100 | extending the last range in place, or starting a new one, keeps the coalesced form |
| `PhysicalView.GetMemRange` | chipsec/hal/paging.py:86-101 | starts strictly increase, the union is that of the kept pages, every kept page lies in a range that shows its own attribute (or none if none are wanted), no neighbours can still be merged; raises exactly when a kept page is 4MB |
| `PhysicalView.GetAddressSpace` | chipsec/hal/paging.py:79-84 | the sum of the kept pages' sizes |
| `PhysicalView.ReverseTranslation.constructor` | chipsec/hal/paging.py:129-137 | the reverse dictionary holds, for each physical base, exactly the pages recorded for it in order |
| `PhysicalView.InvertedIsInverse` | chipsec/hal/paging.py:129-137 | the reverse dictionary is exactly the inverse relation, sizes and attributes included |
| `PhysicalView.InvertedInOrder` | chipsec/hal/paging.py:129-137 | the pages of one base are listed in the order in which they were recorded |
| `PhysicalView.ReverseLookup` | chipsec/hal/paging.py:139-142 | a reverse lookup returns exactly the recorded pages whose base is the 4KB frame of the address |
| `PhysicalView.ForwardThenBack` | chipsec/hal/paging.py:53-77 | if va translates to pa, the page that did it is among the pages found for pa, at the same offset |
| `PhysicalView.BackThenForward` | chipsec/hal/paging.py:53-77 | every page found for pa below 2^52 translates some address to pa |
| `FvWalk.FvSum8` | chipsec/hal/uefi_fv.py:283-288 | the byte sum modulo 256 |
| `FvWalk.FvSum16` | chipsec/hal/uefi_fv.py:294-304 | the sum of 16-bit little-endian words modulo 65536 |
| `FvWalk.Checksum8Meaning` | chipsec/hal/uefi_fv.py:290-292 | a stored byte equals the checksum exactly when it brings the sum to zero |
| `FvWalk.Checksum16Meaning` | chipsec/hal/uefi_fv.py:306-308 | the same for words |
| `FvWalk.NextFwVolume` | chipsec/hal/uefi_fv.py:333-362 | a result is a valid header with its whole image inside the buffer, and no valid header before it, or before the last 56 bytes when there is no result, is skipped |
| `FvWalk.NextVolumeExact` | chipsec/hal/uefi_fv.py:310-362 | the search function itself is sound and complete in that sense |
| `FvWalk.VolumesAdvance` | chipsec/hal/uefi_fv.py:333-362 | successive volumes start at strictly increasing offsets |
| `FvWalk.VolumeChecksum` | chipsec/hal/uefi_fv.py:345-355 | the calculated checksum equals the stored one exactly when the header's 16-bit sum is zero |
| `FvLayouts.HeaderRoundTrip` | chipsec/hal/uefi_fv.py:310-362 | a header packed field by field in front of a body is found by the search with exactly these fields if and only if its reserved byte is 0, extended offset and header length are below the length, the length fits the buffer and 96 bytes are left |
| `FvLayouts.SearchStarts` | chipsec/hal/uefi_fv.py:334 | a search begins at the offset, or behind the last volume, which counts for at least 56 bytes |
| `FvWalk.NextFwFile` | chipsec/hal/uefi_fv.py:407-463 | returns the first acceptable file: every aligned header before it is blank or of legal size and unacceptable; no result means none before the first header of illegal size or the end |
| `FvWalk.NextFileExact` | chipsec/hal/uefi_fv.py:407-463 | the search function itself is sound and complete in that sense |
| `FvWalk.ScanSound` | chipsec/hal/uefi_fv.py:407-463 | a file found is aligned, non-empty, inside the volume, in a valid state and made of its own bytes |
| `FvWalk.FilesOrdered` | chipsec/hal/uefi_fv.py:407-463 | on every volume the files are 8-aligned, disjoint, strictly ordered and inside it, and there are fewer than one per 8 bytes |
| `FvLayouts.StateMeaning` | chipsec/hal/uefi_fv.py:446-447 | acceptable and update-or-deleted states by their bits 2, 3 and 4, for both polarities |
| `FvLayouts.BlankMeaning` | chipsec/hal/uefi_fv.py:416-426 | a blank header is 24 bytes 0xFF, or 0x00 without erase polarity |
| `FvLayouts.AttributeMeaning` | chipsec/hal/uefi_fv.py:428-455 | bit 0 of the attributes marks a large file, bit 6 a checksummed one |
| `FvLayouts.SizeMeaning` | chipsec/hal/uefi_fv.py:434-439 | which bytes give a file's size, for small and large files, by arithmetic on the bytes |
| `FvLayouts.FileFields` | chipsec/hal/uefi_fv.py:427-461 | every field of the returned file from its 24 header bytes, the calculated checksum included: its high byte sums the body or is 0xAA |
| `FvAssemble.NextFwFileSection` | chipsec/hal/uefi_fv.py:466-496 | returns the first section whose header is neither empty nor all ones, with its type, header size, size and bytes; no result means every header tried up to the end is one of those |
| `FvAssemble.NextSectionExact` | chipsec/hal/uefi_fv.py:466-496 | the search function itself is sound and complete in that sense |
| `FvAssemble.SectionInside` | chipsec/hal/uefi_fv.py:466-496 | a section lies inside the data at or after the search start |
| `FvAssemble.SizeWordMeaning` | chipsec/hal/uefi_fv.py:512-545 | the packed size word holds the low three size bytes and the type or state byte |
| `FvAssemble.RawRoundTrip` | chipsec/hal/uefi_fv.py:466-545 | an assembled raw section reads back as its image if and only if its length is below the extended-size marker |
| `FvAssemble.SectionRoundTrip` | chipsec/hal/uefi_fv.py:466-541 | an assembled compression section reads back with its two header fields and its image if and only if its length is below the extended-size marker |
| `FvAssemble.FileRoundTrip` | chipsec/hal/uefi_fv.py:407-533 | an assembled file parses as itself if and only if it is not empty and fits the 3-byte size; then GUID, bytes, type and checksum agree |
| `FvAssemble.AssembleThenParse` | chipsec/hal/uefi_fv.py:407-545 | image to raw section to file and back to the image, if and only if the file fits |
| `FvLayouts.RawLayout` | chipsec/hal/uefi_fv.py:543-544 | the bytes of a raw section: 24-bit length with the header, type 0x19, the image, zeros up to a multiple of 8 |
| `FvLayouts.SectionLayout` | chipsec/hal/uefi_fv.py:535-540 | the bytes of a compression section |
| `FvLayouts.FileLayout` | chipsec/hal/uefi_fv.py:512-532 | the bytes of a file: GUID, type 0x02, attributes 0x40, length, state 0xF8, image, and checksums that bring header and image to zero |
| `FvEdit.PaddingExact` | chipsec/hal/spi_uefi.py:102-120 | the padded file has the counted length if and only if the file is below 4 GB |
| `FvEdit.MappedMeaning` | chipsec/hal/spi_uefi.py:105-120 | below 4 GB: a matching file is removed, followed or preceded by the new file, or replaced by it, and the new file is filled with fewer than 8 bytes 0xFF to a multiple of 8; commands are 0 to 3; other files stay |
| `FvEdit.PolarityMeaning` | chipsec/hal/spi_uefi.py:96 | the erase polarity is bit 11 of the volume's attributes |
| `FvEdit.SpliceFiles` | chipsec/hal/spi_uefi.py:98-126 | the in-place loop with its running length change is the recursive splice over the files of the volume |
| `FvEdit.SpliceIsRebuild` | chipsec/hal/spi_uefi.py:98-126 | for every volume and command, with an inserted file below 4 GB, the in-place splices give the bytes of a one-pass rebuild that keeps gaps and maps each file |
| `FvEdit.SpliceOneMatch` | chipsec/hal/spi_uefi.py:98-126 | the same for a file of any length when at most one file matches |
| `FvEdit.SpliceCounts` | chipsec/hal/spi_uefi.py:98-126 | the length change is the sum over matching files, FvEndOffset is the shifted end of the last file of at least 24 bytes or what it was before, an invalid command raises exactly on a match |
| `FvEdit.RebuildTail` | chipsec/hal/spi_uefi.py:98-126 | what follows the last file is moved by the length change and otherwise kept |
| `FvEdit.EditConserves` | chipsec/hal/spi_uefi.py:98-134 | if the final pad or trim falls inside the volume, the image after it is the old one with only this volume's image replaced by the rebuilt files and adjusted free space |
| `FvEdit.EditedImageShape` | chipsec/hal/spi_uefi.py:127-134 | the replaced image has the volume's length and header |
| `FvEdit.RemovalConservesExactly` | chipsec/hal/spi_uefi.py:105-134 | a removal conserves the header, the length and everything behind the volume if and only if nothing matches or some file has at least 24 bytes |
| `FvEdit.EditedImageTail` | chipsec/hal/spi_uefi.py:127-134 | bytes behind the last file, and behind FvEndOffset after growth, stay where they are |
| `FvEdit.RemovalKeepsLength` | chipsec/hal/spi_uefi.py:105-134 | removal keeps the image length with no condition on sizes or free space |
| `FvRun.ModifyUefiRegion` | chipsec/hal/spi_uefi.py:91-145 | the nested loops compute the recursive run over all volumes |
| `FvRun.FfsGuids` | chipsec/hal/spi_uefi.py:97 | the two file systems that are edited, by their GUIDs in text form |
| `FvRun.RunConserves` | chipsec/hal/spi_uefi.py:91-145 | a run whose final pads and trims fall inside their volumes ends, keeps the image length and changes no byte outside the edited volume bodies |
| `FvRun.RemovalRunKeepsLength` | chipsec/hal/spi_uefi.py:91-145 | a removal run ends on every image and keeps its length |
| `FvLocal.SearchLocal` | chipsec/hal/uefi_fv.py:333-362 | images that agree from a point before which no header found begins give the same search result |
| `FvLocal.EditStep` | chipsec/hal/spi_uefi.py:94-144 | a fitting edit of one volume changes nothing outside its body, nothing behind the growth, and nothing at all without a match |
| `FvLocal.FitRunConserves` | chipsec/hal/spi_uefi.py:91-145 | from a condition on the original image alone: the run ends, keeps the length and changes only bodies of the image's own volumes |
| `FvLocal.RunLocal` | chipsec/hal/spi_uefi.py:91-145 | runs over images that agree behind a point agree there afterwards and leave alone everything before their search start and before the end of the first possible header |
| `FvRestore.ScanSame` | chipsec/hal/uefi_fv.py:407-463 | a search in moved bytes finds the file, moved, exactly when it is found in the volume shortened by the move, also when the file is shorter than its header |
| `FvRestore.ScanCut` | chipsec/hal/uefi_fv.py:407-463 | in a shorter volume that still holds it, a file is found or nothing is |
| `FvRestore.ErasedLastIsBig` | chipsec/hal/uefi_fv.py:407-463 | in a volume with erased free space the last file has at least 24 bytes |
| `FvRestore.RemoveReaches` | chipsec/hal/spi_uefi.py:98-126 | where the removal's walk over an inserted volume stops, where its FvEndOffset is, and that everything inserted before that is removed |
| `FvRestore.LostDiffers` | chipsec/hal/spi_uefi.py:98-134 | if a file is no longer found, the volume after both edits differs from the original |
| `FvRestore.VolumeRestored` | chipsec/hal/spi_uefi.py:91-145 | one volume: insertion then removal gives every byte back if every file survives the shift, with free space no larger than the growth |
| `FvRestore.RestoredExactly` | chipsec/hal/spi_uefi.py:91-145 | one volume: insertion then removal gives every byte back if and only if every file survives the shift by what is inserted before it |
| `FvRestore.FrontKept` | chipsec/hal/spi_uefi.py:91-145 | neither edit changes a byte before the end of the first match |
| `FvRestore.RemovalTouchesLess` | chipsec/hal/spi_uefi.py:91-145 | the bytes the removal can change end no later than those the insertion can |
| `FvRoundTrip.InsertedFits` | chipsec/hal/spi_uefi.py:91-145 | whatever survives, the removal's pads fall inside their volumes in the image the insertion leaves |
| `FvRoundTrip.RestoresExactly` | chipsec/hal/spi_uefi.py:91-145 | over any number of volumes, inserting after every match and removing by the new GUID ends, and restores the image byte for byte if and only if in every volume every file survives |
| `FvRoundTrip.InsertThenRemove` | chipsec/hal/spi_uefi.py:91-145 | in particular the image is restored when they all survive |
| `FvGapless.FoundInCut` | chipsec/hal/uefi_fv.py:407-463 | a file at the start of the search is found in any shorter volume that holds it and a byte behind its header |
| `FvGapless.GaplessSurvives` | chipsec/hal/uefi_fv.py:407-463 | in a gapless volume every file survives the insertions |
| `FvGapless.GaplessRoundTrip` | chipsec/hal/spi_uefi.py:91-145 | the whole-image restore for volumes of adjacent 8-aligned files with erased space for the growth |
| `FvWitness.OneVolumeExactly` | chipsec/hal/spi_uefi.py:91-145 | for an image that is one volume, both whole runs restore it if and only if every file survives |
| `FvWitness.OneVolumeRemoval` | chipsec/hal/spi_uefi.py:91-145 | for such an image a whole removal run conserves if and only if nothing matches or some file has at least 24 bytes |
| `FvWitness.NotRestored` | chipsec/hal/spi_uefi.py:91-145 | a concrete 144-byte image that insertion and removal do not restore |
| `FvWitness.ShortFileMisplaced` | chipsec/hal/spi_uefi.py:123-132 | a concrete 96-byte image with a 16-byte file whose removal moves the volume's own header |
| `FvCounter.ShortFileTrimmed` | chipsec/hal/spi_uefi.py:123-130 | a concrete 120-byte image where a 16-byte file behind the match is trimmed away and does not come back |
| `FvCounter.ShortMatchLost` | chipsec/hal/spi_uefi.py:101-126 | a concrete 144-byte image where a matching 16-byte file is overwritten and the removal finds nothing |
| `FvCounter.LongFileMisplaced` | chipsec/hal/spi_uefi.py:102-116 | a concrete volume with two matches where a file of 4 GB is not spliced as the one-pass rebuild |
| `FvCounter.Endless` | chipsec/hal/spi_uefi.py:93-144 | a concrete 96-byte image and file on which the run is unfinished after any number of volumes |
| `S3Codec.WriteDataIsBuffer` | chipsec/hal/uefi_common.py:678-697 | re-packing the unpacked values of a write gives its buffer |
| `S3Codec.DefaultRoundTrip` | chipsec/hal/uefi_platform.py:949-1077 | decoding an encoded default-format operation gives it back, every field included |
| `S3Codec.EdkBodyRoundTrip` | chipsec/hal/uefi_platform.py:1080-1190 | the same for the EDK-compatible format |
| `S3Layouts.NewMeaning` | chipsec/hal/uefi_common.py:678-697 | when a read, write or read-write object can be made, and that counted data of the exact length is read as that many little-endian values |
| `S3Layouts.DecodesHead16` | chipsec/hal/uefi_platform.py:964-968 | default IO_WRITE and DISPATCH (lines 1004 to 1008), byte by byte |
| `S3Layouts.DecodesHead24` | chipsec/hal/uefi_platform.py:969-988 | default IO_READ_WRITE, MEM_WRITE and PCI_CONFIG_WRITE, byte by byte |
| `S3Layouts.DecodesHead32` | chipsec/hal/uefi_platform.py:979-993 | default MEM_READ_WRITE and PCI_CONFIG_READ_WRITE, byte by byte |
| `S3Layouts.DecodesSmbus` | chipsec/hal/uefi_platform.py:994-998 | default SMBUS_EXECUTE, byte by byte |
| `S3Layouts.DecodesStall` | chipsec/hal/uefi_platform.py:999-1003 | default STALL, byte by byte |
| `S3Layouts.DecodesShort` | chipsec/hal/uefi_platform.py:1009-1022 | default DISPATCH_2 raises, TERMINATE and unknown codes need only their first byte |
| `S3Layouts.DefaultCut` | chipsec/hal/uefi_platform.py:949-1022 | a default operation cut off anywhere in its fields raises |
| `S3Layouts.EncodesWrite` | chipsec/hal/uefi_platform.py:1034-1050 | the bytes of a default write, or the exception for a field that does not fit |
| `S3Layouts.EncodesReadWrite` | chipsec/hal/uefi_platform.py:1041-1056 | the bytes of a default read-write, or the exception |
| `S3Layouts.EncodesOthers` | chipsec/hal/uefi_platform.py:1052-1077 | the bytes of a default dispatch; the operations that have no encoder yield none |
| `S3Layouts.EdkWrites` | chipsec/hal/uefi_platform.py:1098-1105 | EDK-compatible writes, byte by byte |
| `S3Layouts.EdkReadWrites` | chipsec/hal/uefi_platform.py:1107-1116 | EDK-compatible read-writes with values of the width's size |
| `S3Layouts.EdkWidthUnknown` | chipsec/hal/uefi_platform.py:1107-1113 | a read-write of any other width raises |
| `S3Layouts.EdkWords` | chipsec/hal/uefi_platform.py:1122-1138 | EDK-compatible STALL, DISPATCH and MEM_POLL |
| `S3Layouts.EdkOthers` | chipsec/hal/uefi_platform.py:1098-1146 | SMBUS_EXECUTE decodes to nothing, TERMINATE and unknown codes need no fields, cut-off fields raise |
| `S3Layouts.EdkEncodes` | chipsec/hal/uefi_platform.py:1155-1190 | the bytes of EDK-compatible operations, or the exception for a field that does not fit |
| `S3Script.EntryLength` | chipsec/hal/uefi_platform.py:1193-1247 | an entry that decodes is at least 3 or 9 bytes and at most 0x200 long |
| `S3Script.EntryRoundTrip` | chipsec/hal/uefi_platform.py:1193-1276 | a created entry is parsed back to its operation wherever it stands in a script |
| `S3Script.DefaultEntryRead` | chipsec/hal/uefi_platform.py:1221-1244 | any 32-bit index and length in front of an operation parse to that entry, stop the parse above 0x200 bytes, or raise, as the operation decides |
| `S3Script.TerminateEntry` | chipsec/hal/uefi_platform.py:1231-1233 | any 8 bytes and 0xFF, wherever they stand, parse to index -1, length 9 and a terminate operation |
| `S3Script.EdkEntryRead` | chipsec/hal/uefi_platform.py:1201-1218 | any 16-bit opcode and length byte in front of an operation parse to that entry or raise |
| `S3Script.EdkTerminateEntry` | chipsec/hal/uefi_platform.py:1210-1211 | the EDK-compatible terminate entry is 3 bytes long whatever its length byte |
| `S3Script.TooShort` | chipsec/hal/uefi_platform.py:1199-1228 | fewer than 3 or 9 bytes left stop the parse |
| `S3Script.IdentifyMeaning` | chipsec/hal/uefi_platform.py:1279-1294 | 0xAA in front means EDK-compatible entries after 13 bytes, anything else default entries at once |
| `S3Layouts.EdkCreated` | chipsec/hal/uefi_platform.py:1266-1276 | the header bytes of a created EDK-compatible entry count themselves; exactly when a field does not fit it raises |
| `S3Layouts.DefaultCreated` | chipsec/hal/uefi_platform.py:1266-1276 | the same for a default entry, which also needs an index |
| `S3Script.ParsedContiguous` | chipsec/hal/uefi.py:51-78 | entries lie one after the other from the header on and nothing follows a terminate entry |
| `S3Script.ParseScript` | chipsec/hal/uefi.py:51-78 | ends on every script; returns the contiguous entries up to the first that cannot be parsed, raises on an empty script |
| `S3Script.EdkScriptRoundTrip` | chipsec/hal/uefi_platform.py:1080-1294 | EDK-compatible entries after a 13-byte header, and any bytes behind a terminate entry, parse back to the same operations at prefix-sum offsets |
| `S3Script.DefaultScriptRoundTrip` | chipsec/hal/uefi_platform.py:949-1294 | default entries, the terminate entry at the end and any bytes behind it parse back to the same operations if and only if the script does not start with 0xAA |
| `SigDb.ExtractList` | chipsec/hal/uefi_common.py:350-367 | appends exactly the signatures of one list body, with files numbered in order |
| `SigDb.ParseSbDb` | chipsec/hal/uefi_common.py:320-377 | ends on every byte string without a failing unpack and returns the signatures of the specification, one numbered file each |
| `SigDb.NothingTwice` | chipsec/hal/uefi_common.py:320-377 | on every byte string the signatures together are no longer than the database |
| `SigDb.LeadingZerosStop` | chipsec/hal/uefi_common.py:328-336 | a database starting with 20 zero bytes yields nothing |
| `SigDb.SerialiseThenParse` | chipsec/hal/uefi_common.py:320-377 | parsing serialised lists recovers every signature of the accepted lists in order, except the last bare owner of a list |
| `SigDb.RoundTrip` | chipsec/hal/uefi_common.py:303-377 | all accepted signatures come back if and only if no accepted list holds bare owners |
| `SigDb.AcceptedSizes` | chipsec/hal/uefi_common.py:302-377 | the signature size each type is accepted in |
| `SigDb.KnownTypes` | chipsec/hal/uefi_common.py:302-317 | no GUID but the ten upper-case ones has a type |
| `SigDb.Sha256List` | chipsec/hal/uefi_common.py:303-377 | a list with the SHA256 GUID and signatures of 0x30 bytes comes back whole |
| `SigDb.Sha1Type` | chipsec/hal/uefi_common.py:306 | GUID in text form, name and size |
| `SigDb.Sha224Type` | chipsec/hal/uefi_common.py:309 | GUID in text form, name and size |
| `SigDb.Sha256Type` | chipsec/hal/uefi_common.py:303 | GUID in text form, name and size |
| `SigDb.Sha384Type` | chipsec/hal/uefi_common.py:310 | GUID in text form, name and size |
| `SigDb.Sha512Type` | chipsec/hal/uefi_common.py:311 | GUID in text form, name and size |
| `SigDb.Rsa2048Type` | chipsec/hal/uefi_common.py:304 | GUID in text form, name and size |
| `SigDb.Rsa2048Sha1Type` | chipsec/hal/uefi_common.py:307 | GUID in text form, name and size |
| `SigDb.Rsa2048Sha256Type` | chipsec/hal/uefi_common.py:305 | GUID in text form, name and size |
| `SigDb.X509Type` | chipsec/hal/uefi_common.py:308 | GUID in text form, name, and that the size varies |
| `SigDb.Pkcs7Type` | chipsec/hal/uefi_common.py:316 | GUID in text form, name, and that the size varies |
| `SigDb.BareOwnerLost` | chipsec/hal/uefi_common.py:351-354 | a concrete X509 list that is lost |
| `Smbios.GetRawStruct` | chipsec/hal/smbios.py:213-265 | a structure is returned exactly when a header and more than a terminator fit; it is the slice up to the scan's end |
| `Smbios.ScanExact` | chipsec/hal/smbios.py:250-262 | the scan passes no terminator and stops at one unless the table ends |
| `Smbios.GetRawStructs` | chipsec/hal/smbios.py:387-418 | searches the 64-bit table unless there is none or the 32-bit one is forced, in each of the four combinations; returns the wanted structures in order; raises exactly when a typed query meets a structure shorter than a header |
| `Smbios.HeaderMeaning` | chipsec/hal/smbios.py:420-435 | type, length and little-endian handle of a structure header |
| `Smbios.StructsTile` | chipsec/hal/smbios.py:387-418 | on every table the structures lie end to end and are a prefix of it |
| `Smbios.GetStringList` | chipsec/hal/smbios.py:437-468 | returns the zero-terminated strings after the formatted area; nothing for a structure shorter than its own length |
| `Smbios.StringsMeaning` | chipsec/hal/smbios.py:452-468 | on every structure the strings are zero-free, stored end to end, and no further one ends before the last byte |
| `Smbios.StructFound` | chipsec/hal/smbios.py:213-265 | a serialised structure is found as exactly its slice if and only if no string but the first is empty |
| `Smbios.TableRoundTrip` | chipsec/hal/smbios.py:213-418 | cutting a serialised table gives back every structure, except exactly a last one with no strings |
| `Smbios.TypeSelected` | chipsec/hal/smbios.py:409-416 | a typed query on a serialised table selects exactly the structures of that type and raises nothing |
| `Smbios.SearchFinds` | chipsec/hal/smbios.py:387-418 | the whole query on a serialised table: all structures, or exactly those of the type asked for, without a last one that has no strings |
| `Smbios.StringRoundTrip` | chipsec/hal/smbios.py:437-468 | the strings come back in order if and only if they are not a single empty string |
| `Smbios.EndOfTableDropped` | chipsec/hal/smbios.py:245-248 | a table of only an end-of-table structure yields nothing |
| `Spi.WaitCycleDone` | chipsec/hal/spi.py:496-524 | true exactly when the cycle ends within 1000 polls and one more; error flags never matter |
| `Spi.StatusMeaning` | chipsec/hal/spi.py:64-105 | cycle in progress, access error and cycle error are bits 5, 2 and 1; clearing takes bits 0 to 2 |
| `Spi.SendCycle` | chipsec/hal/spi.py:526-561 | one cycle at the masked address with the given byte count, after which the controller, which takes go from bit 0 and the cycle from the bits above (0 read, 2 write, 3 erase), is idle |
| `Spi.ReadSpi` | chipsec/hal/spi.py:589-646 | exactly the flash bytes of the range, by read cycles of 1 to 64 bytes that tile it; the flash is unchanged |
| `Spi.WriteSpi` | chipsec/hal/spi.py:648-689 | programs exactly the buffer at the range by write cycles of 1 to 4 bytes that tile it |
| `Spi.EraseSpiBlock` | chipsec/hal/spi.py:691-707 | exactly the block of the address becomes 0xFF |
| `Spi.ReadBack` | chipsec/hal/spi.py:589-689 | what is read back is the buffer if and only if the flash still had every bit of it set; other bytes are kept |
| `Spi.ReadBackErased` | chipsec/hal/spi.py:589-689 | on erased flash what was written is what is there |
| `Spi.EraseWriteRead` | chipsec/hal/spi.py:589-707 | erase, write, read returns the buffer and changes no byte outside the block |
| `Tpm.StatusMeaning` | chipsec/hal/tpm.py:256-263 | burst count, ready and data-available are bits 8 to 31, 6 and 4 of the status |
| `Tpm.SendCommand` | chipsec/hal/tpm.py:244-271 | for every status schedule: a finished send wrote exactly command[:size] in order, within each reported burst, after ready and before go; it waits exactly when the schedule is too short; a size beyond the command raises |
| `Tpm.EnoughBursts` | chipsec/hal/tpm.py:261-269 | n bytes go through exactly when the reported bursts add up to n |
| `Tpm.ReceiveBytes` | chipsec/hal/tpm.py:298-305 | n bytes in FIFO order, never more than the last reported burst between status reads |
| `Tpm.ReadResponse` | chipsec/hal/tpm.py:273-321 | the same header and data for every schedule that lets it finish, within the reported bursts; it finishes exactly when the schedule allows |
| `Tpm.HeaderMeaning` | chipsec/hal/tpm.py:307 | tag, response size and return code of a header, big-endian |
| `Tpm.ResponseRoundTrip` | chipsec/hal/tpm.py:307-321 | a packed response comes back: its header fields, and its data exactly when the return code is zero |

## Left out

- FvRun.ModifyUefiRegion: takes a bound on the number of volumes and reports `Unfinished` beyond it, because the code need not end (`Endless`); runs whose pads and trims fall inside their volumes and removal runs are proved to end.
- FvRoundTrip.RestoresExactly: asks that no matching file ends inside the 56 bytes of the volume header, which a header length of at least 32 rules out, and that matching files are at least as long as their headers.
- FvRestore.RestoredExactly: the converse asks that large files are longer than their 32-byte header; for a bare large header at the very end of a volume the size is read from another field, and erased size bytes can restore the volume although another size is found.
- FvEdit.EditConserves: for growth the condition is sufficient only; for removal it is exact.
- FvEdit.SpliceIsRebuild: with two matches a file of 4 GB or more is counted too short, so later splices land too early (LongFileMisplaced); which such volumes still come out right by coincidence is not characterised.
- Spi.ReadSpi: asks for a range inside the flash; what a controller does beyond it is not modelled.
- Spi.WriteSpi: the same range condition, and every cycle completes within the polls made.
- Tpm.SendCommand: a device that never answers is a status schedule that runs out.
- PageTables.PageTableReader.PrintEntry: the printed line is not modelled, only the recording of the page.
- Spi.SendCycle: a controller that starts a cycle always ends it within the polls made.
- `expand_pages`, `del_page`, the PAE reader, VT-d contexts, saving and loading of configurations, `check_misconfig`, all page-table printing.
- Section names, hashes and user-interface strings; `build_efi_*` trees; `GetFvHeader`; compression.
- S3 operations without a codec (SMBUS, STALL, default PCI read-write and TERMINATE encoders, DISPATCH_2), `encode_s3bootscript_entry`, and finding the script in memory.
- NVRAM variable readers, authenticated-variable and ESAL parsers; parsing of the certificates inside signatures.
- SMBIOS entry points and decoded structure types; the text form of strings and GUIDs.
- SPI region tables, write protection, SFDP and JEDEC cycles; clocks and sleeps.
- TPM command construction, locality hand-over and register dumps.
- ACPI, PCI, MMIO, MSR and port I/O wrappers, chipset configuration, the command line, logging and file output.
