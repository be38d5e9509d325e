# CAP-FS: a model of the tagged capability store and of path resolution

CAP-FS keeps a file system in memory that is reached through capabilities. This project models two
parts of it and proves what they are for.

**The store** (`src/backends/files.c`) is one flat file. In front lies a bitmap with one validity bit
per 8-byte slot, packed in 32-bit words; behind it lie the data. A capability (base, size, permissions)
is packed into 64 bits and salted; clients hold the salted word, a *capref*. `put_cap` stores a capref
and tags its slot, `get_cap` loads from tagged slots only, `write` and `zero` clear the tags of every
slot they touch.

**The file system** (`src/filesystem.c`) formats a capability with a root block, checks that block at
initialisation, and resolves paths with a tokeniser that writes NULs into the buffer it scans.

## How the model is built

| module | what it holds |
|---|---|
| `Words` | words as numbers below a power of two; `\|`, `& ~`, `^` on binary digits; little-endian bytes |
| `Capabilities` | packing, salting, and the eight bytes stored for a capref |
| `Layout` | the file layout, slot addressing, and the meaning `Abs` of a file image: data bytes and a set of tagged slots |
| `Bitmap`, `FileStore` | class `Backend` over one byte array: seeks, writes, bit loops and chunk loop, each operation proved to refine one step of the tagged memory |
| `TaggedMemory` | the abstract tagged memory: operations, their effects and responses, runs |
| `Answers` | when each operation gives which answer, and every byte and tag it leaves, in terms of its arguments and the memory alone |
| `Assertions` | the metadata accesses of each operation, and that its precondition is exactly their assertions |
| `Traces`, `Authority`, `Isolation`, `Zeroing` | theorems over runs of operations |
| `RootBlock` | class `FileSystem`: format and init on top of `Backend` |
| `PathWalk` | the tokeniser, its specification, and composition of paths |
| `AsWritten`, `Departures` | the places where the text of the source does something else, with exact conditions |

`Abs` is injective (`Layout.AbsIsInjective`), so an equation between abstract memories is an equation
between whole file images, bitmap included; `TaggedMemory.Leads` says of two images that a sequence of
operations takes one to the other, and `Backend.Execute` plays such a sequence on the file. The size
parameter is any `sizeBits` from 8 to 63, and caprefs are all 64-bit words: no theorem over runs assumes
a capability to be well formed or to lie in the store. An operation requires, where the source asserts
it, that the metadata words it accesses lie in the bitmap, and no more (`TaggedMemory.OpFits`,
`Assertions.OpFitsExactly`); through a capability that lies in the store that always holds
(`TaggedMemory.CapFitsOpFits`). The head and the tail of a
bitmap range, which read, edit and write one word each, share a method; each operation converts its
capref once and works on the capability, also where `zero` calls `write`.

## Where the model follows the intent, not the text

The source is a prototype; some lines do not do what the code around them needs. The model takes the
evident intent, and proves of each line when the text is right, or what it does instead.

| source | the text | the model | when the text is right |
|---|---|---|---|
| `src/backends/files.c:302`, `:325`, `:502`, `:547`, `:606`, `:650` | `>=` refuses a range that ends exactly at its limit | both readings: `RefuseAtLimit` is the text, `AcceptAtLimit` what the documentation needs. Everything over runs holds for both | `Zeroing.ZeroClearsAll`, `Zeroing.ZeroIsOneWrite`, `RootBlock.FormatUntagsExactly` |
| `:241`, `:263` | `<=` against an exclusive end | `<` | `AsWritten.RightOnWholeWordsOnly` |
| `:247`, `:270` | the edited word is written back at the advanced pointer | it is written back where it was read | `AsWritten.RightOnWholeWordsOnly` |
| `:250` | asserts a word boundary that a range inside one word does not reach | no assertion | `AsWritten.RightOnWholeWordsOnly` |
| `:564` | tags the empty range at the address | tags the eight bytes at the address | `AsWritten.PutCallTagsExactly`: never at an 8-byte aligned address; a slot is newly tagged only at unaligned addresses in the first slot of a metadata word |
| `:531-565` | no alignment check in `put_cap` | a misaligned address is refused with -1 | `Departures.PutNeedsAlignment` |
| `:212` | mask `0x3` for 8-byte slots | 8-byte alignment | `Departures.MaskAdmitsHalfSlots` |
| `:506` | looks up the tag at the offset, not at the address loaded from | at base + offset | `Departures.TagLookupIgnoresBase` for the lookup; `Departures.TextGetIsRightExactly` for `get_cap` with `:212`, `:502` and `:506` together |
| `:502`, `:547` | no test for a negative offset, unlike `:602` and `:646` | a negative offset is refused with -1 | `Departures.NegativeOffsetsWrap` for the check, `Departures.TextPutStaysInside` for what `put_cap` then stores, `Departures.TextPutBelow` and `Departures.TextPutOverTags` at -8 |
| `:181` | reads into the pointer parameter itself, so that the caller's word stays what it was | fills the caller's word | `Departures.UnfilledWordNeverLoads`: never for `get_cap`, whose word stays 0. `AsWritten` proves the range update with the word filled and with the word left as it was |

Two departures concern the documentation only. A shift `1UL << size_bits` by 64 or more is undefined
in C; the model takes the count modulo 64, as x86-64 does. `src/filesystem.c:254` and `:264` ignore the
error of a resolution step; the model keeps that: a failed step stays where it was.

## Model

| member | source | states |
|---|---|---|
| Capabilities.CompressDecompress | src/backends/files.c:118-131 | every 64-bit word, well formed or not, is the packing of what it unpacks to |
| Capabilities.DecompressCompress | src/backends/files.c:118-131 | a capability survives packing if and only if its base is below 2^48 and its size is the one its size field names |
| Capabilities.CompressIsSum | src/backends/files.c:126-131 | the three shifted fields are or-ed without disturbing one another, and fit 64 bits |
| Capabilities.CaprefRoundTrip | src/backends/files.c:144-158 | a capref comes back bit for bit from the capability it names |
| Capabilities.CapabilityRoundTrip | src/backends/files.c:144-158 | a capability comes back from its capref if and only if it survives packing |
| Capabilities.StoreLoadRoundTrip | src/backends/files.c:510-519 | loading the eight bytes stored for a capref gives that capref: salt, codec and byte order compose to the identity |
| Capabilities.LoadStoreRoundTrip | src/backends/files.c:551-557 | any eight bytes are those stored for the capref they load as |
| Words.BitOfWord | src/backends/files.c:551-557 | words lie in the file little-endian: bit k of a word is bit k % 8 of its byte k / 8 |
| Answers.CaprefNames | src/backends/files.c:118-151 | the capref, unsalted, is base + size field * 2^48 + permissions * 2^56, and the size has exactly the bit that its field names, below 8 and from 64 on too |
| Answers.StoredWord | src/backends/files.c:551-557 | the eight bytes stored for a capref are its word, unsalted |
| Layout.SlotAddressing | src/backends/files.c:167-171 | slots have pairwise different bits, exactly the slots of the store have theirs in the bitmap, and together they fill it |
| Layout.BitmapIsWholeWords | src/backends/files.c:77-87 | every slot's metadata word lies inside the bitmap if and only if the size parameter is at least 8, which is the model's only condition on it besides being below 64 |
| Layout.TouchedAreOverlapping | src/backends/files.c:231-232 | rounding out takes in exactly the slots that share a byte with the range, plus, for an empty unaligned range, the slot it falls in |
| Layout.MetadataSplice | src/backends/files.c:188-205 | overwriting four bytes of the bitmap changes that metadata word, no other word and no data byte |
| Layout.DataSplice | src/backends/files.c:319-338 | overwriting bytes of the data region changes no metadata word |
| Layout.AbsIsInjective | src/backends/files.c:72-87 | two file images that mean the same data and tags are the same bytes |
| Layout.ZeroImageIsUntagged | src/backends/files.c:377-386 | a freshly truncated file means zeros and no tags |
| Layout.TagInFile | src/backends/files.c:167-220 | slot s is tagged if and only if bit s % 8 of byte s / 8 of the file is set |
| Layout.DataInFile | src/backends/files.c:287-292 | the data byte at an address lies one 64th of the store's size behind it in the file |
| FileStore.Backend.constructor | src/backends/files.c:362-406 | an existing file of the right size is reopened and means what it held; a new one means zeros and no tags; the root capref is that of Answers.RootNames |
| Answers.RootNames | src/backends/files.c:398-406 | the root capref names base 0, the size of the store, and exactly the permission bits 1, 2 and 3 |
| Answers.RootIsPermitted | src/backends/files.c:398-406 | through the root capref no operation reports NoAccess, except a load where no tag is |
| FileStore.Backend.MemoryIsMeaningOfImage | src/backends/files.c:72-87 | the tagged memory a valid store speaks of is the meaning of its file image |
| FileStore.Backend.MetadataRead | src/backends/files.c:169-186 | returns the metadata word that holds the slot's bit |
| FileStore.Backend.MetadataWrite | src/backends/files.c:188-205 | replaces that word, and leaves the other words and the data alone |
| FileStore.Backend.IsCapability | src/backends/files.c:207-221 | true if and only if the address is aligned and its slot is in the set of tags |
| FileStore.Backend.EditBits | src/backends/files.c:241-245 | the bit loop sets the bits from the first slot's to the end of the word or of the range, and keeps the others |
| FileStore.Backend.UpdatePartialWord | src/backends/files.c:237-248 | sets the bits of one word from the first slot's to the end of the word or of the range; every other slot and the data are unchanged |
| FileStore.Backend.UpdateWholeWord | src/backends/files.c:252-257 | sets 32 slots with one write; every other slot and the data are unchanged |
| FileStore.Backend.UpdateSlots | src/backends/files.c:235-273 | marks exactly the slots of the range |
| FileStore.Backend.UpdateValidBits | src/backends/files.c:223-274 | head, whole words and tail together add or remove exactly the rounded-out slots, for every range: empty, inside one word, or ending on a boundary; the data are unchanged |
| FileStore.Backend.CapstoreRead | src/backends/files.c:295-317 | returns the data bytes of the range, or refuses exactly the ranges that exceed the store |
| FileStore.Backend.CapstoreWrite | src/backends/files.c:319-338 | lays the bytes over the data and keeps the metadata, or refuses and changes nothing |
| FileStore.Backend.GetCap | src/backends/files.c:487-520 | responds as the tagged memory does, and changes nothing |
| FileStore.Backend.PutCap | src/backends/files.c:531-565 | takes the step of the tagged memory and responds as it does; on an error the whole file is unchanged |
| FileStore.Backend.Read | src/backends/files.c:585-620 | responds as the tagged memory does, and changes nothing |
| FileStore.Backend.Write | src/backends/files.c:632-663 | takes the step of the tagged memory and responds as it does; on an error the whole file is unchanged, except in the one case of Isolation.FailingWriteChangesNothing |
| FileStore.Backend.Zero | src/backends/files.c:678-698 | takes the single step of the tagged memory and responds as it does; on an error the whole file is unchanged |
| FileStore.Backend.Execute | src/backends/files.c:487-698 | any sequence of operations leads the file to the image that the run of the tagged memory prescribes, and each reports what the memory would have reported at its place in the run |
| TaggedMemory.CapFitsOpFits | src/backends/files.c:169-190 | through a capability that lies in the store, no metadata assertion can fail, in any operation |
| Assertions.CoversExactly | src/backends/files.c:223-273 | a range passes the precondition of the tag update if and only if every slot the update passes to a metadata access has its word in the bitmap |
| Assertions.OpFitsExactly | src/backends/files.c:169-190 | what an operation requires holds if and only if none of its metadata accesses fails its assertion |
| TaggedMemory.NextChunk | src/backends/files.c:689-695 | one round of the chunk loop extends the zeroed part by its chunk, or by nothing when the last chunk is refused |
| Answers.GetAnswers | src/backends/files.c:487-520 | get_cap: NoAccess if and only if permission bit 1 is missing, or the range is in the capability and the address unaligned or untagged; a capref if and only if permission, both ranges and tag are there, and then the one whose unsalted word lies at the address; else Failed |
| Answers.PutAnswers | src/backends/files.c:531-565 | put_cap: NoAccess if and only if permission bit 2 is missing, Done if and only if it is there, the range is in the capability and the store, and the address is a multiple of 8; else Failed |
| Answers.PutLeaves | src/backends/files.c:551-564 | an accepted put_cap leaves the eight stored bytes and one more tag; any other leaves every byte and tag |
| Answers.ReadAnswers | src/backends/files.c:585-620 | read: NoAccess if and only if permission bit 1 is missing; data if and only if it is there and the range is in the capability and the store, for every offset and length, and then exactly the bytes there; else Failed |
| Answers.WriteAnswers | src/backends/files.c:632-663 | write: NoAccess if and only if permission bit 2 is missing; the full length if and only if it is there and the range is in the capability and the store; else Failed |
| Answers.WriteLeaves | src/backends/files.c:654-662 | every byte and tag after a write: bytes are stored if both range checks pass, tags cleared if the first does |
| Answers.ZeroAnswers | src/backends/files.c:678-698 | zero: NoAccess if permission bit 2 is missing, and success otherwise, whatever its writes reported |
| Answers.ZeroLeaves | src/backends/files.c:689-697 | every byte and tag after zeroing any capability: a byte is zeroed if and only if its chunk of 256 passes both range checks, a slot untagged if and only if it shares a byte with a chunk that passes the first |
| Traces.SlotTrace | src/backends/files.c:531-663 | after any run, a slot is tagged if and only if the last operation to touch it was a put_cap there, and then holds the bytes of that capref |
| Traces.GetCapTrace | src/backends/files.c:487-565 | from a zeroed memory, after any run, a load through any capability yields r if and only if the last operation to touch the slot was a put_cap of r at that very address; it is refused access if and only if that was no put_cap or the address is unaligned |
| Traces.GetCapTraceOnFile | src/backends/files.c:487-565 | the same of the file: in any image a freshly created file is led to, get_cap loads r if and only if the last operation on the slot put r at that address |
| Traces.NoneTouchesLater | src/backends/files.c:531-663 | the operation the trace theorems name is the last: none after it touches the slot |
| Traces.PutThenGet | src/backends/files.c:487-565 | an accepted put_cap followed by a get_cap of the same address, through whatever capabilities, returns the capref bit for bit |
| Traces.ByteTrace | src/backends/files.c:531-663 | after any run, every byte is the one last stored at its address, or the initial one |
| Traces.ReadTrace | src/backends/files.c:585-620 | a read accepted by the capability and by the store returns, at each position, the byte last stored at its absolute address, however the capabilities of the run overlap |
| Authority.StepCreatesNoAuthority | src/backends/files.c:487-565 | a step that uses only held caprefs keeps what is held or stored within what was held or stored before |
| Authority.NoAuthorityCreated | src/backends/files.c:487-663 | the same over whole runs of clients that use only what they hold by then |
| Authority.PlayIsRun | src/backends/files.c:487-698 | what clients do that use only caprefs they hold is the run of the tagged memory, and so what the operations on the file do |
| Authority.ChangesAreAuthorised | src/backends/files.c:487-698 | whatever such clients do, every byte of the file that changes, data or bitmap, stands for an address of a writable capability held or stored at the start |
| Authority.LoadsAreAuthorised | src/backends/files.c:487-698 | every capref that an operation of such a run loads was held or stored at the start |
| Authority.HeldIsLoaded | src/backends/files.c:487-520 | clients come to hold exactly what they held and what operations of the run have loaded |
| Authority.InStoreTripsNoAssertion | src/backends/files.c:169-190 | when everything held or stored lies in the store, a client that uses what it holds trips no assertion, and everything stays in the store |
| Authority.RootCoversStore | src/backends/files.c:398-406 | the root capability survives its conversion to a capref, and lies in the store |
| Authority.RootSize | src/backends/files.c:398-406 | the root capability starts at 0 and ends where the store ends |
| Authority.OnlyRootFromRoot | src/backends/files.c:398-565 | from a fresh store and the root capref, all of which lies in the store, no run ever yields another capref |
| Isolation.DataConfined | src/backends/files.c:531-663 | over any run, a byte that differs lies in a writable capability that some operation of the run used |
| Isolation.TagsConfined | src/backends/files.c:531-663 | over any run, a tag that differs belongs to a slot sharing a byte with such a capability |
| Isolation.FileConfined | src/backends/files.c:223-663 | over any run, every byte of the file that differs, data or bitmap, is one a writable capability of the run accounts for: the byte itself, or, for the bitmap, an address whose bit is in that metadata word |
| Isolation.ResponsesConfined | src/backends/files.c:487-620 | what an operation reports depends only on the bytes and tags its capability covers, and loading needs its READ permission |
| Isolation.WriteClearsOverlaps | src/backends/files.c:654-662 | a write of any alignment and length that is accepted reports its full length, stores its bytes, untags every slot it shares a byte with, and keeps bytes and tag of all others; the one exception, an empty write inside a slot, is stated |
| Isolation.EffectsCommute | src/backends/files.c:223-274 | effects on disjoint sets of slots commute |
| Isolation.OperationsCommute | src/backends/files.c:531-663 | operations on disjoint sets of slots lead the file to the same bytes in either order, bitmap and data, even within one metadata word |
| Isolation.FailingWriteChangesNothing | src/backends/files.c:640-662 | a write that reports an error changes nothing on every memory, if and only if it is not one the capability's check accepts and the store, asked after tags are cleared, refuses (an empty range at a slot's start clears none) |
| Isolation.FailureChangesNothing | src/backends/files.c:487-698 | of all operations, only such a write can report an error and have changed something, and it does so on some memory |
| Isolation.WriteAtEndOfStoreFailsLate | src/backends/files.c:650-660 | such a write: eight bytes that end at the end of the store, through a capability that reaches past it; it reports -1 and the last slot has lost its tag |
| Isolation.CapabilityCheckImpliesStoreCheck | src/backends/files.c:650-660 | the store's range check, made after tags are cleared, never refuses what the capability's check accepted, if and only if the capability lies in the store |
| Zeroing.ZeroClearsAll | src/backends/files.c:669-698 | zeroing clears every byte and tag of a capability on every memory if and only if ranges ending at their limit are accepted |
| Zeroing.ZeroIsOneWrite | src/backends/files.c:675-698 | zeroing equals one write of size-many zeros on every memory if and only if such ranges are accepted, or the capability is a single chunk, where both are refused |
| Zeroing.LastChunkIsKept | src/backends/files.c:689-695 | when such ranges are refused, exactly the bytes of the last chunk keep their values |
| Zeroing.ZeroStaysInside | src/backends/files.c:678-698 | zeroing changes no byte outside the capability and no tag of a slot it shares no byte with, also when the capability reaches past the store |
| RootBlock.FormattedBlockIsAccepted | src/filesystem.c:95-106 | magic, header, name and size survive serialisation, whatever the stack held |
| RootBlock.TypeAndVersionAreLeftOver | src/filesystem.c:95-106 | the file type and the version of the root block are whatever the stack held |
| RootBlock.CheckBlockExactly | src/filesystem.c:134-147 | init's checks, byte by byte: -EINVAL if and only if the magic number differs, success if and only if magic, header and name are there |
| RootBlock.FormattedBlockExactly | src/filesystem.c:95-103 | each of the 184 bytes that format writes: magic, name, size, header, and the stack everywhere else |
| RootBlock.StatusExactly | src/filesystem.c:83-163 | format fails with the error of zero if and only if permission bit 2 is missing, and succeeds if and only if it is there and 184 bytes are in the capability and the store; init panics if and only if format fails, and succeeds if and only if permission bit 1 is there as well |
| RootBlock.RootIsAccepted | src/filesystem.c:121-163 | init accepts the root capability of every store |
| RootBlock.FormattedLeaves | src/filesystem.c:83-112 | every byte and tag after format, for any capability and either reading of the range checks |
| RootBlock.FormatFitsExactly | src/filesystem.c:83-112 | what format requires is what its zeroing and its write require |
| RootBlock.InitAcceptsExactly | src/filesystem.c:121-163 | init succeeds if and only if the capability is readable, writable, has at least 256 bytes, and the store accepts its first 184; in the store the last condition holds by itself, under either reading of the range checks |
| RootBlock.FormattedMemory | src/filesystem.c:83-112 | when ranges ending at their limit are accepted, after format the capability holds the block, zeros behind it, and no tag, whatever was there before |
| RootBlock.FormatUntagsExactly | src/filesystem.c:83-112 | format frees a capability of tags on every memory if and only if ranges ending at their limit are accepted |
| RootBlock.FileSystem.Format | src/filesystem.c:83-112 | leaves the formatted memory, and reports an error exactly when the capability is not writable, too small for the block, or the store refuses the block |
| RootBlock.FileSystem.Init | src/filesystem.c:121-163 | formats, reads the block back and accepts it; the global root block is then the one written, and unchanged if init does not succeed |
| PathWalk.ComponentsAreSegments | src/filesystem.c:247-265 | the components are exactly the maximal nonempty slash-free segments of the path, each once and in order |
| PathWalk.ResolvePath | src/filesystem.c:225-277 | the in-place scan terminates, passes the resolver exactly the components in order, and returns the fold of the resolver over them; NULL and "/" are treated apart |
| PathWalk.ResolveEndsTrail | src/filesystem.c:233-276 | a path leads to the end of any trail of places in which each is the resolver's answer for the next component at the one before, or that place again where the resolver fails; "/" leads to the resolver's answer for "/" |
| PathWalk.ComponentsOfJoin | src/filesystem.c:247-265 | the components of p/q are those of p followed by those of q |
| PathWalk.ResolveComposes | src/filesystem.c:233-276 | resolving p/q is resolving q from where p leads, when no path involved is "/" |
| PathWalk.ComposesExactly | src/filesystem.c:233-276 | resolving p/q is resolving q from where p leads, for every resolver, if and only if none of p, q and p/q is "/" |
| PathWalk.ExtraSlash | src/filesystem.c:233-276 | a leading, trailing or repeated slash changes nothing, as long as the path "/" is not involved |
| AsWritten.WholeWordsAreRight | src/backends/files.c:252-257 | the range update as written is right on ranges of whole words, where it reads no word |
| AsWritten.HeadIsWrong | src/backends/files.c:237-250 | it is wrong on a concrete bitmap for every range that starts inside a word, whatever word the head starts from |
| AsWritten.TailIsWrong | src/backends/files.c:259-271 | it is wrong on a concrete bitmap for every range that starts on a word boundary and ends inside a word, whether the tail starts from the word of the bitmap or from the one left by line 252 |
| AsWritten.HeadFallsOnNextWord | src/backends/files.c:237-250 | from a slot inside a word to the word's end, the update as written leaves that word and overwrites the next one, with the bits of the word read, or of the variable, below the slot's |
| AsWritten.TailMarksTooMuch | src/backends/files.c:259-271 | from a word's start to a slot inside it, the update as written marks one slot too many, or, with line 181, the whole word |
| AsWritten.RightOnWholeWordsOnly | src/backends/files.c:231-273 | the range update as written marks exactly its range on every bitmap if and only if both ends lie on 32-slot boundaries, whether the words it edits are read or, as line 181 has it, left as they were |
| AsWritten.PutCallTagsExactly | src/backends/files.c:564 | called with (address, address), for every address and either reading of line 181, the update as written returns with an untagged slot tagged if and only if the address is not 8-byte aligned and its slot is the first of a metadata word |
| Departures.PutNeedsAlignment | src/backends/files.c:551-564 | storing without an alignment check leaves only honest tags on every memory if and only if the address is 8-byte aligned |
| Departures.MaskAdmitsHalfSlots | src/backends/files.c:212-220 | of the offsets the mask 0x3 lets through, exactly those that give an 8-byte aligned address load what the tag of that address vouches for, on every memory |
| Departures.TagLookupIgnoresBase | src/backends/files.c:506-511 | for all bases and offsets: the lookup as written (mask 0x3, slot of the offset) agrees with the one at the address on every set of tags if and only if both refuse for alignment (offset no multiple of 4, address no multiple of 8), or the base is 0 and the offset a multiple of 8 |
| Departures.TextGetAnswers | src/backends/files.c:487-519 | when get_cap as written gives which answer, and what it loads |
| Departures.TextGetIsRightExactly | src/backends/files.c:497-511 | get_cap as written responds as it should on every memory if and only if it is refused for want of READ or for its range, or the two tag lookups agree; a negative offset it passes is answered with the wrong error |
| Departures.NegativeOffsetsWrap | src/backends/files.c:502-504 | the unsigned 64-bit check agrees with the check on integers for every signed offset except those within eight bytes below the capability |
| Departures.TextPutAtExactly | src/backends/files.c:531-559 | when put_cap as written stores and at which file offset, for every base and offset |
| Departures.TextPutStaysInside | src/backends/files.c:547-559 | whatever the file holds, put_cap as written stores over data bytes of its capability only, if and only if it does not pass a negative offset whose wrapped address the store and the seek accept |
| Departures.TextPutBelow | src/backends/files.c:547-559 | at offset -8 it stores over the eight bytes of the file in front of any writable capability of the store: data if and only if the base is at least 8, all bitmap if and only if the base is 0 and the size parameter at least 9; it fails where the file has no eight bytes there |
| Departures.TextPutOverTags | src/backends/files.c:279-336 | at base 0, and so through the root capability, the bytes stored replace the last two words of the bitmap, which are 64 tags; the other words and the data are kept |
| Departures.TagsBelowTripAssertion | src/backends/files.c:171-239 | where the address has wrapped around, the update of the tags that follows fails the assertion of its first access |
| Departures.AddressesDoNotWrap | src/backends/files.c:511 | once the capability's check has passed, no address computed from any capref reaches 2^64 |
| Departures.AnswerFromFilledWord | src/backends/files.c:216-220 | with the metadata word filled in, the answer is the tag lookup |
| Departures.UnfilledWordNeverLoads | src/backends/files.c:179-220 | with the word that the text leaves the caller, get_cap loads from no memory through no capability |

## Left out

- FileStore.Backend.Write: requires the assertions at files.c:171 and :190 to hold for the metadata words of its range; what the file holds when one of them stops the process, after some tags are cleared, is not modelled.
- FileStore.Backend.Zero: requires the same of its chunks.
- FileStore.Backend.GetCap: requires the same of the word of the slot it looks up.
- FileStore.Backend.Execute: requires the same of each operation of the sequence.
- RootBlock.FileSystem.Format: requires the same of its zeroing and its write, and so does RootBlock.FileSystem.Init.
- The body of `capfs_filessystem_resolve_one`: it fails for every name, because the content capability it asks for is never found; path resolution is proved for an arbitrary resolver instead.
- The process exit after a failed format: it is the status `Panicked`, and the model goes on.
- Standard I/O errors, opening and truncating the file, logging, and allocation failure are foreign calls; reads and writes of the file succeed.
- Buffer lengths and offsets are integers; a buffer long enough for offset plus length to exceed 64 bits does not exist.
- The FUSE operations in `src/fsops` and `src/main.c` are stubs or dispatch.
- `src/backends/dummy.c` is a fixed table of five entries.
- `capfs_backend_cap_mint` is declared but has no implementation.
- Concurrent callers: the source has no locking, and operations are modelled one at a time.
- How hard a capref is to guess: the source calls its conversion a dummy.
