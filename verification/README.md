# A verified model of nosgem and its wolfSSL kernel glue

The project models, in Dafny, the parts of the nosgem repository that carry state, arithmetic or protocol, and proves what they
promise for all inputs, all memory images, all interleavings and all servers.

| files | what they model |
|---|---|
| `Words`, `RelocTable`, `RelocNormalize`, `RelocChunks`, `FipsText`, `RelocLink`, `IntegrityHash` | the relocation normaliser of the Linux kernel module, the chunk loop that feeds it to an HMAC, and the offline tool that stores the digest |
| `VecRegs`, `VecRegsRuns`, `BsdVecRegs` | nested saving and restoring of vector registers on several CPUs, for Linux and FreeBSD |
| `Cursors`, `Cbc`, `Gcm` | the FreeBSD driver's walks over scatter/gather buffers |
| `UrlPath`, `UrlRfc`, `UrlNormalize`, `Url`, `Query`, `Browse` | path normalisation against section 5.2.4 of RFC 3986, URL parsing, resolving and printing, percent-encoding, the browse loop |
| `Tofu` | trust on first use over a file of known hosts |
| `Gemtext`, `Wrap`, `Render`, `Pages`, `Bookmarks` | the line parser, word wrapping, the streaming renderer, whole pages, and bookmarks read back as pages |
| `Reply`, `Request`, `RequestRuns`, `RequestTurns`, `RequestResults`, `Fetch` | response headers, a request with its redirects and questions against any server, and a page fetched and rendered as it arrives |
| `Common` | options, minima and C strings |

Code that changes things step by step is a method over arrays or a class, proved equal to a specification function; the
properties are lemmas about those functions, or about all runs of a state machine built from them. Memory is a sequence of bytes,
machine words are integers with every reduction modulo 2^16, 2^32 or 2^64 written out. Block cipher, keystream, tag and HMAC are
arbitrary functions (the block cipher a keyed bijection). The server, the user and the scheduler are arbitrary: everything they
may do is a parameter of the theorems.

Where the code and its comments or natural expectations part, the code is modelled and the difference is a theorem:

- `RequestResults.FlagNeverSet`, `RequestResults.LimitReached`: `src/gemini.h:17` says that `redirect_limit` is set when the redirect
  limit is exceeded; `set_err` clears it again, so no error ever carries it.
- `Url.PrintedParsesBack`, `Url.QueryLinkPrintsAnother`: the printed form of a page is parsed to that page if and only if its port is
  1965 and its path is normal. A port is printed in a form the parser refuses, because the digits of a port are looked for up to
  the end of the string; and a link that starts with a question mark is appended without normalising, so `?a//b` followed from
  `gemini://h/` shows a page whose printed form is another page's.
- `Bookmarks.BookmarkLeadsBack`, `Bookmarks.BlankLosesPage`: a bookmark leads back to its page if and only if its port is 1965, its
  path is normal and its printed form has neither blanks nor carriage returns. The reader ends an address at the first blank, so the
  page a user reaches by typing `h/a b` is bookmarked as a link to `gemini://h/a`.
- `Bookmarks.BookmarksReadBack`: one bookmark with an address of 512 characters or more, up to its first blank, which is written
  all the same, keeps the bookmarks page from rendering.
- `Tofu.LongHosts`: host and port are printed into 256 bytes, which a well-formed URL can overrun; `HostportFits` is the condition.
- `Tofu.RememberedExactly`: a confirmed fingerprint is remembered if and only if host and fingerprint are words the file can hold.
- `Tofu.SpillsExactly`, `Tofu.BlankInFrontSpills`: confirming a host that ends in one word behind leading white space or a line feed,
  and only such a host, can change the lookup of another: of that word. After a yes for the host ` x`, or for one a redirect names
  with a line feed in front of `x`, the host `x` is trusted though nobody was asked about it.
- `RequestResults.BufferHoldsExactly`: the 32-bit sum that guards the body buffer wraps if and only if the buffer ends within a chunk
  of 4 GiB, and then a larger body is accepted.
- `IntegrityHash.RodataWithinExactly`, `IntegrityHash.DigestPastRodata`: no check keeps a stored digest that starts in the FIPS rodata
  from ending behind it; then, and for a module that passes the checks and ends below 4 GiB only then, the length of the last piece
  hashed wraps and the piece leaves the module.
- `BsdVecRegs.SaveKeepsExactlyBelowWrap`, `BsdVecRegs.WrapClosesSection`: the FreeBSD nesting count has no overflow check, so the
  correspondence with the outstanding saves holds if and only if the count does not wrap.
- `VecRegsRuns.WrongFlagRestore`: a restore with the wrong flag is harmless except for an inhibiting save inside another save.
- `Browse.BackReturns`: going back undoes a move if and only if the history was not full.

## Model

| member | source | states |
|---|---|---|
| RelocTable.FindRelocTabOffset | lib/wolfssl/linuxkm/linuxkm_memory.c:76-122 | every probe of the hop search is in range for any table; it refuses exactly for a table of at most one entry or an offset at or past the text or the last entry; otherwise it finds an upward crossing, which on a sorted table (duplicates included) is the least index whose offset is at least the target |
| RelocTable.SearchFailsExactly | lib/wolfssl/linuxkm/linuxkm_memory.c:84-95 | when the search is refused, in addresses: at most one entry, or a target behind the text or not in front of the last entry |
| RelocTable.LayoutsAre | lib/wolfssl/linuxkm/linuxkm_memory.c:40-74 | width and signedness of every relocation type by its number, as tabulated; no other number is known |
| RelocTable.EntryReadsBack | lib/wolfssl/linuxkm/linuxkm_memory.h:68-77 | three words, three bits of segment and five of type, as a packed record, are read back as that record whatever its unused bits |
| Words.XorBit | lib/wolfssl/linuxkm/linuxkm_memory.c:435-436 | each bit of an exclusive or is 1 if and only if that bit of the operands, found by dividing, differs |
| RelocNormalize.NormalizeText | lib/wolfssl/linuxkm/linuxkm_memory.c:131-470 | result, output buffer, cursor and counters after a call, for any table, span and cursor (but for a resumed cursor on an empty table, where the source reads past it): refused spans and searches change nothing, a walk ends as `Walk` says, bytes past the chunk stay |
| RelocNormalize.WalkTable | lib/wolfssl/linuxkm/linuxkm_memory.c:176-450 | the in-place loop over the table computes the walk of the chunk it started from and leaves the rest of the buffer alone |
| RelocNormalize.WalkChecks | lib/wolfssl/linuxkm/linuxkm_memory.c:191-221 | for any table, a walk that ends has met only known types in ascending order, skipped entries aside, and a walk that fails has an entry ahead that is not |
| RelocNormalize.RewriteField | lib/wolfssl/linuxkm/linuxkm_memory.c:250-449 | exactly the field's bytes are replaced by its normal form |
| RelocNormalize.LoadExtends | lib/wolfssl/linuxkm/linuxkm_memory.c:253-282 | a loaded field is the number its bytes stand for, in two's complement of its width if signed |
| RelocChunks.WalkOnWellFormed | lib/wolfssl/linuxkm/linuxkm_memory.c:176-248 | on a well-formed table a call never fails, its finished bytes are those of the normalised text, its counters grew by one per passed relocation, and it stops short only right at a relocation that straddles the end of the chunk |
| RelocChunks.RewriteStep | lib/wolfssl/linuxkm/linuxkm_memory.c:438-449 | applying one more entry gives the text with one more entry applied; bytes outside its field are kept |
| RelocChunks.NormTextBytes | lib/wolfssl/linuxkm/linuxkm_memory.c:172-174 | every byte outside the relocated fields is copied unchanged, and every relocated field holds the normal form of its own bytes |
| RelocChunks.OnePass | lib/wolfssl/linuxkm/linuxkm_memory.c:741-763 | one call over a whole range yields the normalised text, up to a relocation straddling the range's end: the reference that chunked runs are compared with |
| RelocChunks.ChunkFromCursor | lib/wolfssl/linuxkm/linuxkm_memory.c:466-469 | a call resumed from the stored cursor continues the normalised text where the last one stopped |
| RelocChunks.TallySplit | lib/wolfssl/linuxkm/linuxkm_memory.c:452-458 | counting in two stretches of the table is counting in one |
| FipsText.HashFipsText | lib/wolfssl/linuxkm/linuxkm_memory.c:741-763 | for every table and every buffer of at least 8 bytes the chunk loop terminates, and success means that as many bytes were fed as the FIPS text has; on a well-formed table it succeeds if and only if the FIPS text lies in the text, the table has a sentinel past its start and no relocation straddles its end, and then exactly the normalised FIPS text was fed, whatever the buffer size, and every relocation was counted once |
| FipsText.Round | lib/wolfssl/linuxkm/linuxkm_memory.c:745-762 | a round makes positive progress, or the text cannot be hashed at all |
| FipsText.StuckAtEnd | lib/wolfssl/linuxkm/linuxkm_memory.c:240-248 | a round without progress means a relocation runs past the end of the hashed text |
| FipsText.TallyIsCountedOnce | lib/wolfssl/linuxkm/linuxkm_memory.c:284-328 | each of the five counters grew by the number of relocations of the range with that destination |
| FipsText.CountersSumToRelocs | lib/wolfssl/linuxkm/linuxkm_memory.c:452-458 | the five counters together grew by the number of relocations in the FIPS text |
| RelocLink.LoadAddressIndependence | lib/wolfssl/linuxkm/linuxkm_memory.c:337-353 | for every well-formed table, two placements of text, rodata, data and bss linked by S+A-P and S+A in the field's width normalise to the same bytes |
| RelocLink.LoadedFieldRebases | lib/wolfssl/linuxkm/linuxkm_memory.c:337-350 | for each of the four segments, named by its own fencepost, and each of the five x86 types, a field loaded as S+A-P (5 and 6) or S+A (2 to 4) in its width is rebased to the symbol's offset in that segment, modulo the width |
| RelocLink.OtherFieldsRebase | lib/wolfssl/linuxkm/linuxkm_memory.c:317-432 | a field of any other segment or type is blanked; in the file one of the five types has the destination offset of its record |
| RelocLink.StoredBytes | lib/wolfssl/linuxkm/linuxkm_memory.c:434-449 | bit by bit, a stored field is the rebased value with segment number and type over its top byte, or for 64 bits with both labels shifted as the platform does |
| RelocLink.OfflineEqualsLive | lib/wolfssl/linuxkm/linuxkm_memory.c:341-353 | the offline result on the unlinked file equals every live one when destination offsets are the symbols' segment offsets |
| RelocLink.RebaseRecoversSymbol | lib/wolfssl/linuxkm/linuxkm_memory.c:346-349 | subtracting what the linker added leaves the symbol's offset, in the field's width, sign extension included |
| RelocLink.LabelAgree | lib/wolfssl/linuxkm/linuxkm_memory.c:434-449 | labelling and storing keeps exactly the bits that fit the field, for any value of the oversize shift |
| RelocLink.NormTextTellsApart | lib/wolfssl/linuxkm/linuxkm_memory.c:330-449 | two live texts have the same normal form if and only if they agree on every byte outside the fields that are blanked: the hash sees any other change |
| RelocLink.FieldInjective | lib/wolfssl/linuxkm/linuxkm_memory.c:337-353 | a field that is not blanked can be read back from its normal form |
| IntegrityHash.CheckModule | lib/wolfssl/linuxkm/linuxkm_memory.c:554-683 | the error of the first failing check of fenceposts and table, or none if and only if all pass |
| IntegrityHash.FencesExactly | lib/wolfssl/linuxkm/linuxkm_memory.c:554-645 | every fencepost check, restated over the lists of segments and of stretches that may be open: which are not to be empty, which lie within the module, and the code of the first that fails |
| IntegrityHash.CheckedExactly | lib/wolfssl/linuxkm/linuxkm_memory.c:646-682 | a module passes if and only if its fenceposts do, the four bytes of the length count at least one record of 16 bytes, all of them end within module and fencepost, and the last holds segment and type 1, read off one byte |
| IntegrityHash.CheckedIsMapped | lib/wolfssl/linuxkm/linuxkm_memory.c:573-682 | where the checks pass, text and table lie in memory |
| IntegrityHash.RodataWithinExactly | lib/wolfssl/linuxkm/linuxkm_memory.c:782-794 | for a module of known end below 4 GiB that passes the checks of its fenceposts, every piece of rodata handed to the HMAC lies in the module if and only if a digest that starts in the FIPS rodata ends there |
| IntegrityHash.DigestPastRodata | lib/wolfssl/linuxkm/linuxkm_memory.c:573-682 | fenceposts that pass every check though the digest ends behind the rodata, with a piece that leaves the module |
| IntegrityHash.RodataIsAround | lib/wolfssl/linuxkm/linuxkm_memory.c:782-794 | rodata of less than 4 GiB is hashed as it stands, without a digest that starts and ends in it |
| IntegrityHash.GenerateHash | lib/wolfssl/linuxkm/linuxkm_memory.c:537-819 | a failing check is answered with its error; any other module whose pieces of rodata lie in memory yields the digest of as many bytes as its FIPS text has, then these pieces, or an error; a well-formed one yields a digest exactly if it can be hashed, and then that of its normalised text and rodata, with every relocation counted once; nothing is promised once a piece leaves memory |
| IntegrityHash.MessageIgnoresDigest | lib/wolfssl/linuxkm/linuxkm_memory.c:782-794 | the HMAC input, and whether it can be formed, depend only on memory outside the stored digest |
| IntegrityHash.LiveEqualsOffline | lib/wolfssl/linuxkm/linuxkm_memory.c:741-794 | at any load address, the loaded module feeds the HMAC what the offline tool fed it for the file if and only if its rodata, the digest aside, is the file's |
| IntegrityHash.MappingAddressIrrelevant | lib/wolfssl/linuxkm/linuxkm-fips-hash.c:291-313 | offline, the page-aligned address the file is mapped at reaches neither the checks nor the outcome nor the HMAC input |
| IntegrityHash.RunTool | lib/wolfssl/linuxkm/linuxkm-fips-hash.c:270-379 | for any module whose pieces of rodata lie in the file, nothing but the stored digest is ever written, and only by a run in place that says so; for a well-formed one result and file do not depend on mapping address or chunk size; nothing is promised once a piece leaves the mapped file |
| IntegrityHash.PatchIsFixedPoint | lib/wolfssl/linuxkm/linuxkm-fips-hash.c:374-379 | a run in place on a module that is not refused and can be hashed matches or patches, and every further run finds the digest already matching and changes nothing |
| IntegrityHash.MatchMeansStored | lib/wolfssl/linuxkm/linuxkm-fips-hash.c:374-376 | a run reports a match if and only if the module passes all checks, can be hashed, and the stored bytes are the digest string |
| IntegrityHash.CStringEqualIsPrefix | lib/wolfssl/linuxkm/linuxkm-fips-hash.c:374 | comparing C strings against a terminated digest is comparing a prefix of the memory |
| VecRegs.FpuTracker.FindUnlikely | lib/wolfssl/linuxkm/x86_vector_register_glue.c:117-213 | slot table and answer of the slow lookup, with allocation on demand, orphan take-over and migration |
| VecRegs.FpuTracker.Find | lib/wolfssl/linuxkm/x86_vector_register_glue.c:215-268 | slot table and answer of the lookup; without creation and before locking it changes nothing |
| VecRegsRuns.LookupExactly | lib/wolfssl/linuxkm/x86_vector_register_glue.c:215-268 | by the owner of the CPU's slot alone: what a quick and a creating lookup find, and the one slot a creating one takes |
| VecRegsRuns.LookupMoves | lib/wolfssl/linuxkm/x86_vector_register_glue.c:189-212 | a restore moves the caller's slot here from the first CPU that has it, and leaves a free one there |
| VecRegsRuns.LookupAllocates | lib/wolfssl/linuxkm/x86_vector_register_glue.c:122-144 | without a table only a FIPS build with memory gets one, all free |
| VecRegs.FpuTracker.CanSaveNow | lib/wolfssl/linuxkm/x86_vector_register_glue.c:293-324 | the answer, and that asking changes nothing |
| VecRegs.FpuTracker.SaveVectorRegisters | lib/wolfssl/linuxkm/x86_vector_register_glue.c:326-471 | code, slot table and every nesting counter after a save, in every branch |
| VecRegs.FpuTracker.RestoreVectorRegisters | lib/wolfssl/linuxkm/x86_vector_register_glue.c:473-528 | slot table and every nesting counter after a restore, in every branch |
| VecRegsRuns.FirstSaveExactly | lib/wolfssl/linuxkm/x86_vector_register_glue.c:326-471 | the code of every first save, plain or inhibiting, by the signal, the preemption count before and under its own lock, and the slot to be had: which of the four refusals, or success |
| VecRegsRuns.FirstSaveTakes | lib/wolfssl/linuxkm/x86_vector_register_glue.c:387-468 | what a successful first save leaves: the whole slot table and every nesting counter |
| VecRegsRuns.NestedSaveByWord | lib/wolfssl/linuxkm/x86_vector_register_glue.c:340-368 | a save on top of others by the word in the slot, whatever it is: refusals, new word, and nothing else changed |
| VecRegsRuns.NestedSaveExactly | lib/wolfssl/linuxkm/x86_vector_register_glue.c:334-368 | the same code by the saves outstanding: refused exactly in hard interrupts, outside threads, under an inhibiting save or at 2^30 - 1 saves |
| VecRegsRuns.RestoreByWord | lib/wolfssl/linuxkm/x86_vector_register_glue.c:473-528 | a restore by the word in the slot, whatever it is: new word, freed slot and nesting given back |
| VecRegsRuns.RestoreElsewhere | lib/wolfssl/linuxkm/x86_vector_register_glue.c:476-489 | a restore on a CPU whose slot is not the caller's is one with the slot moved here, or changes nothing but that a table may be allocated |
| VecRegsRuns.CanSaveByWord | lib/wolfssl/linuxkm/x86_vector_register_glue.c:293-324 | the answer by the word of the CPU's slot if that is the caller's, whatever the other slots hold, and by nesting otherwise |
| VecRegsRuns.CanSaveExactly | lib/wolfssl/linuxkm/x86_vector_register_glue.c:293-324 | asking is answered yes if and only if another save fits on those outstanding or, with none, the FPU is free, in terms of counters and flags |
| VecRegsRuns.RunsKeepInv | lib/wolfssl/linuxkm/x86_vector_register_glue.c:293-528 | every interleaving of saves, restores, saves that sleep or are interrupted by a softirq with saves of its own, other nesting and thread switches on any number of CPUs keeps slots, counters and outstanding saves in correspondence |
| VecRegsRuns.StepKeepsInv | lib/wolfssl/linuxkm/x86_vector_register_glue.c:293-528 | each single step keeps it |
| VecRegsRuns.WordIsStack | lib/wolfssl/linuxkm/x86_vector_register_glue.c:340-368 | in every reachable state the count is the number of outstanding saves, the flag is set exactly if the newest inhibits (only the newest can), the FPU section is open exactly if the oldest does not, and bottom halves are held exactly while some are outstanding |
| VecRegsRuns.SlotsAreOwned | lib/wolfssl/linuxkm/x86_vector_register_glue.c:215-268 | in every reachable state an occupied slot belongs to the thread running on its CPU and no thread owns two |
| VecRegsRuns.FixupsUnreachable | lib/wolfssl/linuxkm/x86_vector_register_glue.c:148-212 | the fix-ups for redundant, orphaned, occupied and migrated slots are reached by no run; a restore finds its own slot, a creating lookup a free one |
| VecRegsRuns.SwitchKeeps | lib/wolfssl/linuxkm/x86_vector_register_glue.c:383-391 | a CPU never changes threads while saves are outstanding on it |
| VecRegsRuns.EnterKeeps | lib/wolfssl/linuxkm/x86_vector_register_glue.c:252-255 | a softirq never comes while saves are outstanding on its CPU, even between the parts of the interrupted thread's save its own saves keep the correspondence |
| VecRegsRuns.NextWord | lib/wolfssl/linuxkm/x86_vector_register_glue.c:351-366 | adding one never carries into the flag, and the new word is that of the stack with the save on top |
| VecRegsRuns.BeginIsPush | lib/wolfssl/linuxkm/x86_vector_register_glue.c:340-374 | a nested save pushes, or is refused exactly when the newest save inhibits or the count is full |
| VecRegsRuns.FinishIsPush | lib/wolfssl/linuxkm/x86_vector_register_glue.c:378-468 | a first save takes a slot and exactly the nesting it will give back, or leaves all nesting as it was |
| VecRegsRuns.PopIsPop | lib/wolfssl/linuxkm/x86_vector_register_glue.c:491-523 | a matching restore pops the word and gives back exactly the nesting held |
| VecRegsRuns.FailedSaveChangesNothing | lib/wolfssl/linuxkm/x86_vector_register_glue.c:334-468 | in any state whatever, a save that fails leaves table and nesting exactly as they were |
| VecRegsRuns.RestoreUndoesSave | lib/wolfssl/linuxkm/x86_vector_register_glue.c:326-528 | a save and its matching restore give back the table and every nesting counter |
| VecRegsRuns.WrongFlagRestore | lib/wolfssl/linuxkm/x86_vector_register_glue.c:491-518 | a restore with the other flag still undoes the save if and only if it is not the plain restore of an inhibiting save inside another save |
| VecRegsRuns.CanSaveIsExact | lib/wolfssl/linuxkm/x86_vector_register_glue.c:293-374 | a plain save succeeds if and only if asking says yes and, for a first save, no signal is pending and a table exists or can be allocated |
| BsdVecRegs.Tracker.SaveVecRegs | lib/wolfssl/bsdkm/x86_vecreg.c:134-184 | outcome, slots and threads after a save, in every branch |
| BsdVecRegs.Tracker.RestoreVecRegs | lib/wolfssl/bsdkm/x86_vecreg.c:186-223 | slots and threads after a restore, in every branch |
| BsdVecRegs.SaveExactly | lib/wolfssl/bsdkm/x86_vecreg.c:134-184 | in any state: when a save succeeds, and what slot and thread are afterwards |
| BsdVecRegs.RestoreExactly | lib/wolfssl/bsdkm/x86_vecreg.c:186-223 | in any state: only the owner in its section changes anything; the last restore frees the slot and leaves the section |
| BsdVecRegs.RunsKeepInv | lib/wolfssl/bsdkm/x86_vecreg.c:134-223 | in every interleaving, other users of the FPU section included, whether or not their threads are preempted in it, a slot belongs to its CPU's thread and its count is the number of outstanding saves; the section is entered once and open exactly while needed |
| BsdVecRegs.StepKeepsInv | lib/wolfssl/bsdkm/x86_vecreg.c:134-223 | each single step keeps that correspondence |
| BsdVecRegs.SaveUnderInvariant | lib/wolfssl/bsdkm/x86_vecreg.c:151-181 | a save is refused, with nothing changed, if and only if other code holds the thread's FPU section; the failure after entering the section never happens |
| BsdVecRegs.RestoreUndoesSave | lib/wolfssl/bsdkm/x86_vecreg.c:134-223 | a restore undoes the save, flags and counters included |
| BsdVecRegs.SaveKeepsExactlyBelowWrap | lib/wolfssl/bsdkm/x86_vecreg.c:160 | a save keeps the correspondence if and only if the 32-bit count does not wrap |
| BsdVecRegs.WrapClosesSection | lib/wolfssl/bsdkm/x86_vecreg.c:210-219 | at the wrap, one save and one restore close the section under all outstanding saves |
| Cursors.AdvanceAddr | lib/wolfssl/bsdkm/wolfkmod.c:716-728 | advancing a cursor moves its address by that many bytes, over any cuts |
| Cbc.CbcWork | lib/wolfssl/bsdkm/wolfkmod.c:663-811 | for any cuts of input and output, apart or in place, the walk terminates, fails exactly for another algorithm or a length that is no multiple of 16 and then changes nothing, and otherwise writes exactly flat CBC of the input bytes and touches nothing else |
| Cbc.EncryptedBlock | lib/wolfssl/bsdkm/wolfkmod.c:758-771 | by index: ciphertext block k is the cipher of plaintext block k xor ciphertext block k-1, or the IV, the exclusive or taken bit by bit |
| Cbc.DecryptedBlock | lib/wolfssl/bsdkm/wolfkmod.c:758-771 | by index: plaintext block k is the inverse cipher of ciphertext block k, xor ciphertext block k-1 or the IV |
| Cbc.EncryptThenDecrypt | lib/wolfssl/bsdkm/wolfkmod.c:732-796 | encrypting over one set of cuts and decrypting over others gives the text back |
| Cbc.EncryptThenDecryptInPlace | lib/wolfssl/bsdkm/wolfkmod.c:726-796 | encrypting and decrypting in place leaves the buffer as it was |
| Cbc.DecryptEncrypt | lib/wolfssl/bsdkm/wolfkmod.c:758-771 | flat CBC decryption inverts encryption |
| Cbc.CryptSplit | lib/wolfssl/bsdkm/wolfkmod.c:753-771 | working in two parts with the chaining block carried over is working in one |
| Cbc.PieceLength | lib/wolfssl/bsdkm/wolfkmod.c:733-756 | every piece is a positive number of whole blocks that fits the data left and both sides, and one block more would not |
| Cbc.ReadPiece | lib/wolfssl/bsdkm/wolfkmod.c:733-742 | a piece from the segment or through the local block is the next bytes of the input |
| Cbc.StorePiece | lib/wolfssl/bsdkm/wolfkmod.c:773-783 | storing either way overwrites exactly the next bytes of the output and moves its cursor behind them |
| Cbc.PassInput | lib/wolfssl/bsdkm/wolfkmod.c:785-793 | the input cursor and its segment stand behind the piece in both cases |
| Gcm.FeedAadFrom | lib/wolfssl/bsdkm/wolfkmod.c:879-905 | segment by segment, exactly the authenticated bytes are fed, in order |
| Gcm.FeedPayloadFrom | lib/wolfssl/bsdkm/wolfkmod.c:911-956 | for any cuts, apart or in place, exactly the payload is fed, in order, and exactly its image is written |
| Gcm.GcmWork | lib/wolfssl/bsdkm/wolfkmod.c:813-988 | encryption writes ciphertext and tag; decryption writes plaintext and reports success exactly if the tag then stored is that of data and payload; cuts never matter |
| Gcm.ApplyAt | lib/wolfssl/bsdkm/wolfkmod.c:928-956 | byte by byte the payload is taken with the keystream at its position, exclusive or taken bit by bit |
| Gcm.SealThenOpen | lib/wolfssl/bsdkm/wolfkmod.c:813-988 | a call that encrypts from one buffer into a second and a call that decrypts from there into a third: the tag is accepted and the text is back, however the three are cut |
| Gcm.SealThenOpenInPlace | lib/wolfssl/bsdkm/wolfkmod.c:922-973 | the same in place: the tag is accepted and afterwards only the tag is new |
| Gcm.DecryptionAccepts | lib/wolfssl/bsdkm/wolfkmod.c:958-973 | what encryption wrote, decryption accepts and turns back |
| Gcm.ApplySplit | lib/wolfssl/bsdkm/wolfkmod.c:928-956 | streaming the payload in two parts is streaming it in one |
| UrlNormalize.NormalizePath | src/url.c:33-88 | the in-place loop computes the normal form (cut at slashes, fold on a stack, join); it fails exactly when a segment finds no room or the result does not fit, and then leaves the buffer alone |
| UrlNormalize.HandleSegment | src/url.c:52-76 | one segment in the temporary buffer and the array of starts is one push or pop of the stack |
| UrlPath.NormalIdempotent | src/url.c:33-88 | normalising twice is normalising once |
| UrlPath.NormalCompose | src/url.c:33-88 | p/q normalises like the normal form of p followed by q |
| UrlPath.NormalComposeFits | src/url.c:64-76 | where p/q finds room, p alone and the composed path do |
| UrlPath.RootedFitsExactly | src/url.c:64-76 | for rooted paths shorter than 512 the byte limits never fire: it fails if and only if 128 segments pile up |
| UrlPath.NormalNotLonger | src/url.c:80-87 | the normal form of a rooted path is rooted and no longer |
| UrlPath.FoldRender | src/url.c:43-87 | rendering a clean stack and reading it back gives the stack |
| UrlRfc.NormalIsRemoveDotSegments | src/url.c:33-88 | for rooted paths without empty segments the normal form is remove_dot_segments (section 5.2.4 of RFC 3986) with a trailing slash removed |
| UrlRfc.RemoveDotsIsFold | src/url.c:43-78 | each round of the routine of the RFC is one step of the fold |
| Url.Parse | src/url.c:90-163 | the parser over buffers computes `ParseUrl`, failures included |
| Url.ReadAuthority | src/url.c:107-146 | host and port of the authority, or a refusal |
| Url.ReadPort | src/url.c:137-144 | giving up early on a port over 65535 never changes the verdict |
| Url.ExplicitPort | src/url.c:130-147 | a host and a decimal port are parsed to exactly these, if and only if the host fits and the port is from 1 to 65535 |
| Url.HostAndPath | src/url.c:148-162 | a host and a path are parsed to the host, port 1965 and the path normalised, or refused exactly if one does not fit |
| Url.NoScheme | src/url.c:106-111 | a text without a scheme is parsed as if it had one, and refused if it names another |
| Url.Resolve | src/url.c:165-220 | resolving over buffers computes `ResolveUrl`, failures included |
| Url.RelativeLink | src/url.c:199-219 | a relative link on a page in directory d leads to the normal form of d, a slash and the link if that is short enough and finds room, and is refused otherwise |
| Url.LinkFromNowhere | src/url.c:199-205 | on a page whose path has no slash a relative link is one from the root |
| Url.RootedLink | src/url.c:185-189 | a link with a leading slash leads to its own normal form whatever the page |
| Url.QueryLink | src/url.c:191-197 | a link with a leading question mark is appended to the path as it stands |
| Url.AbsoluteLink | src/url.c:178-181 | a link with a scheme anywhere is parsed by itself if it starts with gemini, in any spelling, and refused otherwise |
| Url.EmptyLink | src/url.c:173-176 | the empty link leads to the page itself |
| Url.MakeCurrentUrl | src/main.c:168-180 | the printed URL, or nothing if the buffer might not hold it |
| Url.ParseOk | src/url.c:90-163 | a parsed URL has a rooted path under 512 characters, a host without slash and colon under 256, and a port from 1 to 65535 |
| Url.ResolveOk | src/url.c:165-220 | resolving keeps URLs in that shape |
| Url.PrintedParsesBack | src/main.c:168-180 | for every well-formed page the printed form is parsed to the page with its path normalised if the port is 1965 and refused otherwise; to the page itself if and only if the port is 1965 and the path is normal |
| Url.ParsedIsNormal | src/url.c:155-162 | a page fresh from the parser has a normal path |
| Url.ResolvedIsNormal | src/url.c:165-220 | so has a page reached from such a page by a link that does not start with a question mark |
| Url.ParseAddsNothing | src/url.c:90-163 | host and path of a parsed URL have no characters that were not in the text, but for slashes |
| Url.QueryLinkPrintsAnother | src/url.c:188-194 | following `?a//b` from `gemini://h/` leads to a well-formed page whose printed form is parsed to another |
| Query.EncodeQuery | src/gemini.c:92-113 | encoding succeeds if and only if the encoded text and its terminator fit, and then the buffer holds exactly that |
| Query.DecodeEncode | src/gemini.c:92-113 | the decoder of section 2.1 of RFC 3986 gives every byte string back |
| Query.EncodeIsTame | src/gemini.c:83-90 | the encoded text has only unreserved characters and percent signs |
| Query.EncodedChar | src/gemini.c:83-109 | every character stands for itself or for a percent sign and its two upper-case hexadecimal digits |
| Query.Apply | src/gemini.c:115-143 | the new URL, or a refusal exactly when encoding or path would not fit |
| Query.QueryBehindPath | src/gemini.c:127-141 | what stands in front of the first question mark stays and the encoded query follows, if both fit; host and port stay |
| Query.LastQueryWins | src/gemini.c:126-141 | applying two queries in turn equals applying the last alone |
| Query.QueryReadsBack | src/gemini.c:115-143 | the query read off the URL and decoded is the input |
| Browse.Browser.Turn | src/main.c:249-313 | current page and history after every command |
| Browse.CommandLeads | src/main.c:251-313 | a command that leads to a page shows it and remembers the page left, unless 32 are remembered |
| Browse.CommandStays | src/main.c:284-311 | a link or input that leads nowhere changes nothing; going back shows and forgets the newest page remembered |
| Browse.TypedUrl | src/main.c:155-166 | what typed text is parsed as, and which is refused |
| Browse.EveryPageOk | src/main.c:228-314 | from a start page that parses, every page ever shown has a rooted path under 512 characters, and no port only on the host "local" |
| Browse.RunOk | src/main.c:228-314 | every run of commands keeps current page and history in that shape |
| Browse.BackReturns | src/nav.c:13-28 | going back after going somewhere returns to the page left if and only if the history was not full |
| Tofu.KnownHosts.Search | src/tofu.c:153-176 | the first line about the host decides |
| Tofu.LineSays | src/tofu.c:158-169 | any line of three words, whatever white space and rest, is about its first word, spelling aside, and says the third if and only if the second is SHA256, in any spelling |
| Tofu.CommentSaysNothing | src/tofu.c:159 | a line that starts with a number sign is about no host |
| Tofu.TwoWordsSayNothing | src/tofu.c:161 | nor is a line of two words |
| Tofu.SpellingAside | src/tofu.c:162-164 | two words are equal if and only if they differ in nothing but small and capital letters |
| Tofu.KnownHosts.Rewrite | src/tofu.c:90-139 | every line about the host is replaced, all others are kept in place, and a line is appended if there was none |
| Tofu.KnownHosts.CheckKnownHost | src/tofu.c:141-206 | if and only if host and port fit their buffer of 256 bytes: acceptance, whether the user was asked, and the new file; otherwise nothing is promised |
| Tofu.LongHosts | src/tofu.c:143-149 | a well-formed host of at most 249 characters always fits the buffer, one of 254 never, one of 251 not on port 1965 |
| Tofu.CheckEffect | src/tofu.c:90-206 | for every host a URL can have, white space and line feeds included, and every other: after a check the host has the fingerprint confirmed, if one was and the file can hold host and port; a host that was missing has it if it is what the checked one ends in behind white space; and every other host, spelling aside, is looked up as before |
| Tofu.AcceptedUnasked | src/tofu.c:178-192 | exactly a trusted fingerprint passes without a question; an unsupported algorithm is refused without one; in every other case the answer decides; a refusal never changes the file |
| Tofu.RememberedExactly | src/tofu.c:178-204 | a confirmed fingerprint is trusted afterwards if and only if host and fingerprint are words the file can hold |
| Tofu.SpillsExactly | src/tofu.c:195-204 | over every file and answer, a check leaves the lookup of every other host and port as it was if and only if its host does not end in one word behind leading white space or a line feed (white space inside the host, or nothing but white space, harms no one) |
| Tofu.BlankInFrontSpills | src/tofu.c:195-204 | confirming the well-formed host ` x`, or `y`, a line feed and `x`, in an empty file makes `x` trusted without a question |
| Tofu.TrustHasAnOrigin | src/tofu.c:141-206 | over any run with hosts a URL can have that fit their buffer, every fingerprint the file holds for a host was there at the start, or at some event the user was asked about it, for that host or for one that ends in it behind white space, and accepted it; a lookup only ever becomes missing for a host that starts with a number sign |
| Tofu.ConfirmedForItself | src/tofu.c:178-204 | in runs where no host ends in another behind white space, that confirmation was for the host itself |
| Tofu.AcceptedAgain | src/tofu.c:141-206 | a fingerprint accepted, if after a question then for a host the file can hold, is accepted again without a question after any events, on hosts a URL can have that fit their buffer, that do not confirm another for that host |
| Tofu.LineParses | src/tofu.c:104-125 | a line written is read back as the three words it was made of |
| Tofu.LineParsesExactly | src/tofu.c:104-125 | a written line is read back as the three words it was made of if and only if host and fingerprint are such words |
| Tofu.LineIsAbout | src/tofu.c:104-125 | the line written for a host without colons is about exactly the host and port behind its leading white space, or about none if the host has white space inside or starts with a number sign |
| Tofu.FindReplaced | src/tofu.c:100-127 | for every host, replacing its lines decides its own lookup, if it had a line, and leaves every other as it was; a host starting with a number sign is lost in a comment |
| Tofu.FindAppended | src/tofu.c:130-132 | for every host a URL can have, appending its line decides exactly the lookup of what the host ends in behind white space or a line feed (the host itself if it is one word), if that was missing, and none if that is not one word or starts a comment |
| Gemtext.ParseLine | src/gemtext.c:12-95 | the pointer-moving parser computes kind, text, address and the new preformatting state |
| Gemtext.PreformattedLine | src/gemtext.c:21-33 | three back quotes alone switch preformatting, and inside every other line stands for itself |
| Gemtext.HeadingLine | src/gemtext.c:35-50 | one to three number signs, blanks and a text are the heading of that level |
| Gemtext.ItemLine | src/gemtext.c:74-80 | an asterisk and a blank start an item |
| Gemtext.QuoteLine | src/gemtext.c:82-89 | a greater-than sign starts a quotation |
| Gemtext.TextLine | src/gemtext.c:91-94 | any other line is text as it stands |
| Gemtext.LinkReads | src/gemtext.c:52-72 | an arrow, blanks, an address, blanks and a label are read as exactly that link, or refused exactly if address or label do not fit |
| Gemtext.LinkHasShape | src/gemtext.c:52-72 | every parsed link line has that shape |
| Wrap.PrintWrapped | src/render.c:35-86 | terminates and prints exactly the layout of the text's pieces |
| Wrap.TakeWord | src/render.c:51-59 | the piece taken is the run of non-blanks, cut at 255 characters |
| Wrap.LayoutFits | src/render.c:66-80 | every physical line is at most 80 columns, or is the prefix and a single piece |
| Wrap.LayoutIsGreedy | src/render.c:66-77 | a line is broken only where the next piece would not have fitted |
| Wrap.LayoutKeepsText | src/render.c:46-83 | what follows the prefixes is the text, blanks aside |
| Wrap.WordCut | src/render.c:51-59 | a word is cut every 255 characters |
| Wrap.PiecesSplit | src/render.c:47-48 | a blank always ends a piece |
| Wrap.PiecesConcat | src/render.c:46-83 | the pieces in order are the text without its blanks |
| Render.RenderContext.RenderParsed | src/render.c:102-159 | links, output, line count and page breaks after a parsed line |
| Render.LineShows | src/render.c:102-159 | what a line adds to the output, by kind: its mark, its text laid out, and for a link a decimal number that is the number of links then on the page |
| Render.LineLinks | src/render.c:88-129 | only a link line adds a link, its own, cut to the buffers, while there are fewer than 256 |
| Render.LinePauses | src/render.c:21-33 | at which output positions the pager pauses for a line, and that it never does without a page length |
| Render.RenderStream.Feed | src/render.c:183-204 | stream, screen and success after feeding data, over the 1024-character line buffer |
| Render.RenderStream.Flush | src/render.c:206-218 | stream, screen and success after the last line |
| Render.RenderGemtext | src/render.c:220-227 | a whole body is fed and flushed |
| Render.FeedSplit | src/render.c:183-204 | feeding two pieces in turn is feeding them joined |
| Render.FeedChunks | src/render.c:183-204 | for any cutting of the data, output, links, state and failure are those of the data in one piece |
| Pages.FeedCleans | src/render.c:192 | carriage returns never matter |
| Pages.DivideIs | src/render.c:190-202 | every body is its lines, each ended by a newline, and an unfinished line |
| Pages.RenderIs | src/render.c:183-227 | a body is rendered if and only if all its lines fit, and then line by line |
| Pages.RefusedExactly | src/gemtext.c:52-72 | a line of at most 1023 characters is refused if and only if it is a link outside preformatted blocks with an address of 512 characters or more |
| Pages.PageLinks | src/render.c:88-100 | the links of a rendered page are its first 256 link lines outside preformatted blocks, in order |
| Pages.PauseEveryPage | src/render.c:21-33 | the pager pauses once in every page length of logical lines |
| Pages.BodyPauses | src/render.c:21-33 | a whole body pauses as often as a page length fits into the logical lines printed for it |
| Bookmarks.BookmarkFile.Add | src/bookmarks.c:8-24 | exactly an empty address is refused, any other bookmark is one line at the end of the file |
| Bookmarks.BookmarksReadBack | src/bookmarks.c:15-22 | for bookmarks without line feeds or NUL, added one by one, the page renders if and only if every address, up to its first blank and without carriage returns, has at most 511 characters and every line at most 1023, and then its links are the first 256 in order, each as its line is read |
| Bookmarks.MarkReadsExactly | src/bookmarks.c:15-22 | a bookmark on a line that fits reads back, address and label, if and only if its address has no blanks or carriage returns and at most 511 characters |
| Bookmarks.AddressReadsBack | src/gemtext.c:52-72 | the address reads back if and only if it has no blanks or carriage returns, and then the label does, but for carriage returns and the blanks in front of it |
| Bookmarks.SameReadBack | src/bookmarks.c:15-22 | on a page that renders, the links are the first 256 bookmarks themselves if and only if these have addresses without blanks or carriage returns and labels of 1 to 255 characters, without carriage returns, that do not start with a blank |
| Bookmarks.BookmarkLeadsBack | src/main.c:265-283 | for every well-formed page bookmarked among the first 256 of a bookmarks page that renders, no line feed or NUL in any bookmark, following the bookmark leads back to it, from any page, if and only if its port is 1965, its path is normal and its printed form has no blanks or carriage returns |
| Bookmarks.BlankLosesPage | src/main.c:155-166 | the page typed as `h/a b` is well formed, on port 1965 and normal, and its bookmark leads to `gemini://h/a` |
| Reply.ReadHeaderLine | src/gemini.c:27-48 | reading stops at the first line end of the reply within 1023 characters, or fails |
| Reply.HeaderEndAt | src/gemini.c:36-47 | the header ends behind the first carriage return with a line feed, if that is within 1023 characters |
| Reply.HeaderEndIs | src/gemini.c:36-47 | that is the shortest start of the reply that ends a line, and it fails exactly if there is none in time |
| Reply.ParseHeaderLine | src/gemini.c:50-81 | status and meta of the line, or a refusal |
| Reply.HeaderShape | src/gemini.c:58-78 | blanks, two digits, blanks and a meta, up to a line end, a NUL or the end, are read as exactly that status and meta, if the meta has fewer than 1024 characters, and refused otherwise |
| Reply.HeaderRefused | src/gemini.c:58-65 | a line without two digits behind its blanks is refused |
| Reply.ReplyReads | src/gemini.c:27-81 | a header written by a server is read and parsed back, whatever body follows |
| Request.Client.RequestStream | src/gemini.c:184-336 | events, outcome and error record of a request against any server and any inputs; it always terminates |
| Request.Client.Converse | src/gemini.c:222-279 | events and result of one connection |
| Request.Client.ReadBody | src/gemini.c:265-275 | chunks are handed over until one is refused, and the total is the number of bytes modulo 2^32 |
| RequestTurns.RedirectFollowed | src/gemini.c:305-319 | a reply of status 30 to 39 with a meta that resolves to `next`, after fewer than 5 redirects, makes the request go on as one for `next`: connect to its host and port and, once accepted, send its request line |
| RequestTurns.RedirectEnds | src/gemini.c:305-316 | a redirect past the limit or to nowhere ends the request with its message |
| RequestTurns.AnswerSent | src/gemini.c:281-303 | a reply of status 10 to 19 asks with its meta as prompt, and the next request carries the answer as the query of the same page, encoded so that it decodes to the answer |
| RequestTurns.QuestionEnds | src/gemini.c:284-300 | no answer, or one too long, ends the request with its message |
| RequestTurns.ConnectionEnds | src/gemini.c:222-250 | how a request ends that does not get as far as a header: events and error of each of the four ways |
| RequestTurns.NoHeaderEnds | src/gemini.c:252-256 | a reply without a line end in time ends the request |
| RequestTurns.BadHeaderEnds | src/gemini.c:258-262 | so does a header that cannot be parsed |
| RequestTurns.ReplyEnds | src/gemini.c:264-334 | a reply of any other status ends the request with that status and meta; of 20 to 29 with the body handed over, if all of it is taken |
| RequestRuns.SessionIsSafe | src/gemini.c:221-335 | every run follows the order connect, check, send one request line for the host connected to, receive or ask, close, and ends with no connection open; from a well-formed URL on every request is for a rooted path |
| RequestRuns.OneConnection | src/gemini.c:222-335 | at every moment at most one connection is open, and each is closed exactly once |
| RequestRuns.NothingSentUnchecked | src/gemini.c:228-245 | every request is preceded by an accepted certificate on that very connection |
| RequestRuns.OneRequestEach | src/gemini.c:222-250 | at every moment no more requests were sent than connections opened |
| RequestRuns.NothingTakenUnasked | src/gemini.c:245-289 | no chunk is handed over and no question asked before the request of that very connection was sent |
| RequestRuns.SentToItsHost | src/gemini.c:222-245 | from a well-formed URL on, every request is the request line for a rooted path on exactly the host that connection was opened to |
| RequestRuns.RequestIsBounded | src/gemini.c:281-319 | at most 5 redirects are followed and, with k inputs, at most 6 + k connections made |
| RequestResults.SessionTells | src/gemini.c:264-334 | a finished request reports status and meta of its last connection; on success the chunks taken are exactly the bytes that followed the header and the length reported is theirs modulo 2^32; else nothing was taken and the length is 0 |
| RequestResults.DeliverIsBody | src/gemini.c:266-275 | the chunks are the body in order, or a start of it |
| RequestResults.BufferHolds | src/gemini.c:151-182 | however it arrives, a body is accepted if and only if it fits a buffer that ends more than a chunk of 512 bytes below 4 GiB |
| RequestResults.BufferHoldsExactly | src/gemini.c:151-160 | exactly such buffers accept just the bodies that fit: for a larger one the 32-bit sum wraps, and a body of 4 GiB in full chunks is accepted |
| RequestResults.FlagNeverSet | src/gemini.c:306-310 | no error ever carries the redirect flag |
| RequestResults.LimitReached | src/gemini.c:305-319 | a server that always redirects to the same page brings every request whose line fits its buffer to the limit, without the flag |
| RequestResults.SessionAsksWell | src/gemini.c:243-245 | whatever the redirects and answers, every request line asks for a URL with a rooted path under 512 characters |
| Fetch.FetchedPageIsBody | src/main.c:60-125 | whatever the sizes of the reads, a page fetched with success is shown as the body that followed the last header, rendered in one piece |
| Fetch.FetchedExactly | src/main.c:78-79 | with the renderer deciding which chunks are taken, a page is fetched if and only if its body can be fed in one piece |

## Left out

- The counter of out-of-bounds values and the messages of debug builds of the normaliser: they change nothing but a log.
- The masks and pairing flags of the relocation layouts: only the AArch64 and ARM types have them, and those fields are blanked.
- RelocNormalize.NormalizeText: says nothing of a resumed cursor on an empty table, where the source reads entries that are not there.
- FipsText.HashFipsText: for a table that is not well formed it promises no more than termination and the number of bytes fed.
- Key decoding, allocation failures, HMAC failures and the size of the output buffer of the integrity hash; the digest and its encoding are one arbitrary function.
- IntegrityHash.GenerateHash: promises nothing once a piece of rodata leaves memory; `IntegrityHash.RodataWithinExactly` says when that is.
- IntegrityHash.RunTool: promises nothing once a piece of rodata leaves the mapped file.
- The relocation table and its length are read from memory once and handed to each call as a value; the source reads them again.
- Overflow of the C integers that count relocations and printed lines.
- Processes that die with a slot, migration of a thread that holds one, and allocating or freeing the slot table while threads run: the lookups for them are modelled, the runs exclude them.
- Zero-length segments of scatter/gather buffers, on which the GCM walk would not advance.
- Session set-up, key schedules and errors of the cipher library in the FreeBSD driver.
- What `nos_url_parse` leaves in its output when it fails, and printing of URLs whose path is not rooted.
- The buffer `nos_tofu_check` computes its fingerprint into, lines of the known-hosts file longer than 510 characters or without a newline, and failures of its file operations.
- Tofu.CheckEffect: assumes hosts without colons, as every parsed URL has them, that fit their buffer, and fingerprints of 1 to 127 characters without white space; the source's have 64.
- Tofu.KnownHosts.CheckKnownHost: promises nothing once host and port overrun their buffer.
- Bookmarks.BookmarksReadBack: assumes addresses and labels without line feeds or NUL; neither typed lines nor the links of a page have them.
- Status, meta and body length that a failed request leaves behind, and the cut of error messages at 127 characters.
- TLS, TCP, DNS and the certificate itself: connecting, the verdict on the certificate, writing and the bytes that arrive are parameters.
- Configuration, the user prompt, the raw text view for pages that are not gemtext, and the reading of bookmark and home files.
- Entropy collection, kernel crypto registration and the self-tests: plumbing without deep invariants.
