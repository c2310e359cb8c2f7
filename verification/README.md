# A verified model of path relocation and symbol redirection

The repository lets programs run inside a relocated root directory, the *jbroot*, whose name contains a random
value. It has two halves. `symredirect` rewrites Mach-O files so that calls of the system's path functions bind to
a shim library. The run-time library translates path names between the view from inside the jbroot and the real
root, and wraps the functions of the C library that take paths. This project models the algorithms of both halves
in Dafny and proves what they are for.

## What is modelled

**Bind tables** (`Bytes`, `Leb128`, `BindOpcodes`, `BindAssembler`, `Rebind`, `Rewriter`, `BindMeaning`,
`BindTheorems`). A bind table is a byte program for the dynamic linker. `BindAssembler` fixes its format: the decoder
of `BindOpcodes` reads just what it assembles, up to spelling. `Rewriter` is the one-pass transformer over byte
arrays, with its window on the current record, its rewritten shadow and its two flags. `Rebind` says what it
computes, opcode by opcode and without a loop, and what that means for the bytes of an ordinal, for the place of the
result and for the tables that are refused. `BindMeaning` is an interpreter that gives the list of binds a table
stands for, and `BindTheorems` proves that the rewriting changes nothing but libraries, and states exactly when it gives each bind
the right library. The ordinal of the output is sticky state, so it does not always: a record that inherits its
ordinal, or a compact bind, can end up at the wrong library. Two lemmas give such tables, and the conditions are
equivalences.

**Mach-O header and tail** (`MachImage`, `MachHeader`, `ShimCommand`, `SymbolRedirect`, `Linkedit`,
`ProcessTarget`). Load commands are bytes: two independent walks count libraries, a command is inserted behind the
last one, and the theorem is that both counters agree before and after. Symbols and chained imports have packed
ordinals. `Linkedit` appends the rebuilt tables, the string table and the signature to the last segment.
`ProcessTarget` puts a run together and says exactly what a second run does: it changes no ordinal, no symbol and
no byte of a table, and it leaves the layout of the file alone if and only if no table is moved again.

**Paths** (`Tokens`, `FileSystem`, `JbrootName`, `CheckBits`, `PathLoop`, `Jbroot`, `Chroot`, `Rootfs`, `RoundTrip`,
`RootNames`, `UpdateLink`). The file system is any partial function from a node and a name to a node; looking a path
up is the walk of section 4.13 (pathname resolution) of the POSIX.1-2017 Base Definitions. The loops of the two
translations work on buffers as the source does. `Chroot` proves that the string rewriting implements a confined
walk, `RootNames` which names in a path count as those of a relocated root, `RoundTrip` when the two translations undo
each other, and `UpdateLink` what becomes of symbolic links when the random name changes, over a whole pass.
`CheckBits` says what the check byte of a name detects.

**Names, cache and search** (`TempName`, `CachePath`, `PathSearch`). `TempName` is the in-place base-62 odometer
behind the `mktemp` family, with the random characters chosen nondeterministically and the action as an oracle.
`CachePath` is the interning table, with objects for pointers. `PathSearch` is the pair of search loops behind
`execvp` and `posix_spawnp`, against a system that may answer every request differently depending on all requests
before it.

Each method that follows a loop of the source is proved against a function, and the theorems are about that
function. A failed assertion and `abort` are results of the model (`None`, `Abort`, `Aborted`).

## Where the code and its intent differ

- The rewriter's promise fails for inherited ordinals and compact binds (`BindTheorems.InheritedOrdinalIsLost`,
  `BindTheorems.CompactBindIsCaptured`). `BindTheorems.RebindOrdinalsExact` has the exact condition for all tables,
  and `BindTheorems.RebindRedirects` a simpler one for tables that bind with `DO_BIND` only.
- A table whose redirection is lost in this way can be returned in new memory by every run, so that each run appends
  the table, the string table and the signature once more (`BindTheorems.TableMovesEveryRun`); `Rebind.RebindTwice`
  and `ProcessTarget.SecondFile` have the exact condition.
- After a ".." that left the real root, the check of a later ".." in a relative path looks from the real root instead
  of the relocated one (`Chroot.LocateAfterReset`), which can lead to the wrong place (`Chroot.RelativeAfterReset`);
  `Chroot.RelativeRefinementExact` says when it does not.
- The signed LEB128 writer is not the standard one: a negative number takes ten bytes, because the shift is logical
  (`Leb128.WriterIsStandard`). The reader reads both forms (`Leb128.SignedRoundTrip`, `Leb128.StandardReads`).
- The path "/rootfs" comes back as "/rootfs/" (`RoundTrip.RootfsUndoesJbroot`).
- `posix_spawnp` goes on searching after it has started a program whose file cannot be looked at
  (`PathSearch.StartedOnce`, `PathSearch.StartedTwice`). For a name with a slash it answers ENOENT when the request
  was refused with ELOOP, ENAMETOOLONG or ENOTDIR, and when the file cannot be looked at; every other answer comes
  back as it is. `PathSearch.SlashName` has the condition under which the answer is that of `execvPe`.
- The assignment of ENOENT at the end of `execvPe` is never reached, because the field pointer is NULL when the
  loop ends.

## Model

| member | source | states |
|---|---|---|
| Leb128.WriteUnsigned | symredirect.cpp:116-128 | the loop over the ten-byte buffer writes exactly the encoding `Encode` describes, never more than ten bytes, and leaves the rest of the buffer alone |
| Leb128.WriteSigned | symredirect.cpp:129-141 | the same for the signed writer, whose logical shift is kept |
| Leb128.ReadUnsignedAt | symredirect.cpp:142-166 | reads the value and the position after it, or aborts at the end of the data and after ten bytes; the bitwise or of shifted groups is shown to be their sum modulo 2^64 |
| Leb128.ReadSignedAt | symredirect.cpp:167-187 | the same for the signed reader, with its sign extension only below 64 bits |
| Leb128.UnsignedRoundTrip | symredirect.cpp:116-166 | for every 64-bit value, whatever follows it, reading what was written gives the value and consumes the 1 to 10 bytes written |
| Leb128.UnsignedMinimal | symredirect.cpp:116-166 | no encoding the reader accepts for a value is shorter than the one the writer emits |
| Leb128.UnsignedAccepts | symredirect.cpp:142-166 | the unsigned reader accepts just those numbers that end within ten bytes, longer spellings of a value included |
| Leb128.SignedRoundTrip | symredirect.cpp:129-187 | the same round trip for signed numbers, negative ones always taking ten bytes |
| Leb128.StandardReads | symredirect.cpp:167-187 | the signed reader also reads every 64-bit number from its shortest encoding, whose last byte has the sign in bit 6 |
| Leb128.WriterIsStandard | symredirect.cpp:129-141 | what the signed writer emits is that shortest encoding if and only if the number is not negative |
| BindAssembler.AssembleParses | symredirect.cpp:249-403 | an assembler with one case for each opcode: what it emits for any opcode a table of the kind can hold reads back as that opcode, whatever follows |
| BindAssembler.ParsedIsAllowed | symredirect.cpp:249-403 | nothing else is read: the opcode is one this kind of table can hold, spelt by a first byte of its own |
| BindAssembler.ReadableExactly | symredirect.cpp:249-403 | an opcode is read from some bytes if and only if this kind of table can hold it; a weak table has no ordinals, a lazy one no types, address steps or compact binds |
| BindAssembler.AssembledParses | symredirect.cpp:241-252 | an assembled table reads as its opcodes up to its end, or up to the first `Done` with any bytes behind it; a lazy table goes on after a `Done` |
| BindOpcodes.ParseLocal | symredirect.cpp:241-406 | an opcode is self-delimiting: its bytes mean the same whatever follows, so fragments can be concatenated |
| BindOpcodes.ParseSound | symredirect.cpp:241-413 | what is read from a table is a valid list of opcodes made of exactly the bytes of the table |
| BindOpcodes.ParseComplete | symredirect.cpp:241-413 | the bytes of a valid list of opcodes read back as that list, so the two correspond one to one |
| MachImage.ShimIsKept | symredirect.cpp:81-114 | a symbol bound to the shim library is neither redirected again nor refused |
| MachHeader.JudgedByHeader | symredirect.cpp:81-114 | the verdict from the name of the library and the two flag bits: a shim API is redirected exactly if it comes from "/usr/lib/" or "/System/" and symbols are bound by library, and refused exactly without a library or without these flags |
| MachHeader.LibraryReads | symredirect.cpp:59-67 | a load command counts as a library exactly for the four command numbers, and its name is the string at the offset it gives |
| MachHeader.SegmentReads | symredirect.cpp:528-547 | a segment command gives the file offset of each of its sections |
| Rebind.FateOfRecord | symredirect.cpp:331-368 | all opcodes between one `DO_BIND` and the next share the verdict of the second, which is how the pointwise form of the rewriter describes windows |
| Rebind.OutputParses | symredirect.cpp:241-413 | for every table and kind the result reads as the same opcodes in the same order, only ordinal opcodes of redirected records now setting the shim ordinal, with the same bytes after the end |
| Rebind.CursorIs | symredirect.cpp:231-304 | outside weak tables an ordinal is set once an opcode has set one, and a symbol likewise |
| Rebind.LastOrdinal | symredirect.cpp:253-292 | the sticky ordinal is the last that was set, special ones included |
| Rebind.LastSymbol | symredirect.cpp:294-304 | the sticky symbol is the last that was set |
| Rebind.RefusedExactly | symredirect.cpp:331-342 | a table that can be read is refused if and only if it has a `DO_BIND` before any ordinal or symbol, or one of a shim API from no library, or from a system library without binding by library; the self-binding of a weak table is passed over |
| Rebind.RewrittenOrdinal | symredirect.cpp:253-292 | the bytes of a rewritten ordinal opcode: an immediate stays one byte for an ordinal below fifteen, and becomes the two-part form otherwise; the other form keeps its first byte |
| Rebind.InPlaceExactly | symredirect.cpp:343-426 | the result goes back into the table if and only if every ordinal opcode before a redirected `DO_BIND` has the size of its rewritten form already |
| Rebind.ImmediatesStay | symredirect.cpp:253-426 | in particular a table with its ordinals in immediates, for a shim library below fifteen, is rewritten in place |
| Rebind.InPlaceKeepsOffsets | symredirect.cpp:408-426 | a result that is copied back has the size of the table, so the assertion on the size cannot fail, and every opcode keeps its offset |
| Rebind.WeakUnchanged | symredirect.cpp:331-342 | a weak table comes back byte for byte and in place |
| Rebind.CursorOut | symredirect.cpp:253-304 | the sticky ordinal and symbol over the result are those over the input, up to the ordinal |
| Rebind.RebindIdempotent | symredirect.cpp:331-413 | rewriting the result again does not abort and changes no byte |
| Rebind.RedirectedAgain | symredirect.cpp:331-342 | on the result a `DO_BIND` is redirected once more if and only if it was to be redirected and the ordinal it sees was not rewritten |
| Rebind.RebindTwice | symredirect.cpp:408-426 | a second run gives the same bytes, and it leaves them in place if and only if no ordinal opcode that kept its ordinal would change its length before a `DO_BIND` that is redirected in vain |
| Rebind.MovedIsNotEmpty | symredirect.cpp:408-418 | a result in new memory is never empty |
| BindMeaning.BindsOut | symredirect.cpp:221-427 | forgetting ordinals, the linker performs the same binds before and after, with no precondition on the table |
| BindMeaning.BindsExact | symredirect.cpp:331-368 | the result binds to the wanted libraries if and only if every bind-performing opcode sees the right ordinal |
| BindTheorems.RebindPreserves | symredirect.cpp:221-427 | on bytes, for every table that is not refused: same addresses, symbols, types, addends and number of binds |
| BindTheorems.RebindOrdinalsExact | symredirect.cpp:331-368 | the exact condition, opcode by opcode, under which every bind has the library it should have |
| BindTheorems.VerdictIsRedirection | symredirect.cpp:331-342 | the verdict of the rewriter at a `DO_BIND` is the redirection of the bind the linker performs there |
| BindTheorems.RebindRedirects | symredirect.cpp:221-427 | for tables that bind with `DO_BIND` only, the result redirects exactly the right binds if and only if every record without an ordinal of its own has the verdict of the record before it |
| BindTheorems.SelfContainedTables | symredirect.cpp:253-304 | in particular when every record sets its ordinal, as in lazy tables |
| BindTheorems.RebindSettles | symredirect.cpp:408-426 | on such tables no `DO_BIND` of the result is redirected by a second run, and the result stays in place byte for byte |
| BindTheorems.InheritedOrdinalIsLost | symredirect.cpp:331-368 | a nine-byte family of tables where an inherited ordinal makes the redirection fail |
| BindTheorems.CompactBindIsCaptured | symredirect.cpp:385-400 | a family of tables where a compact bind is redirected although its symbol is no shim API |
| BindTheorems.TableMovesEveryRun | symredirect.cpp:408-426 | a family of tables that no run changes and that every run returns in new memory |
| Rewriter.DecodeAt | symredirect.cpp:241-403 | the reading of one opcode in the array agrees with the decoder |
| Rewriter.ShadowBytes | symredirect.cpp:253-292 | the bytes added to the shadow of a record and the `resized` flag |
| Rewriter.DecideHere | symredirect.cpp:331-342 | the decision at a `DO_BIND`, from the bytes of the header |
| Rewriter.RebuiltIsRebuilds | symredirect.cpp:343-344 | the `resized` flag, although it stays set over records that are not redirected, makes `rebuilt` true exactly when a resized opcode precedes a redirected `DO_BIND` |
| Rewriter.Pass | symredirect.cpp:241-413 | the one-pass loop with its window, shadow and flags computes the pointwise specification |
| Rewriter.RebindTable | symredirect.cpp:221-427 | the whole of `rebind` on arrays: aborts, copies back in place or returns new memory, and changes the table only in the second case |
| MachHeader.GetLibraryByOrdinal | symredirect.cpp:53-79 | the walk over the load commands finds the name of exactly the library with that ordinal, or none |
| MachHeader.Judge | symredirect.cpp:81-114 | the decision for one symbol from the bytes of the header |
| ShimCommand.Scan | symredirect.cpp:477-573 | the second, independent walk: ordinal of the shim library, next ordinal and first section agree with the first walk |
| ShimCommand.InsertCommand | symredirect.cpp:590-600 | the bytes of the new command, the count and the size, and nothing else |
| ShimCommand.InsertedWords | symredirect.cpp:590-600 | the six words of the new command, the name behind them, and the two counters of the header, read back as numbers |
| ShimCommand.EnsureShim | symredirect.cpp:580-604 | inserts the command where the library is missing, and refuses exactly when the header has no room below the first section or there is no section |
| ShimCommand.RefusedExactly | symredirect.cpp:580-588 | it is refused if and only if no library is the shim, and no section is in the file or one begins before the 72 bytes behind the load commands end |
| ShimCommand.FirstDecides | symredirect.cpp:542-588 | the one offset that is kept, zero for none, decides whether there is a section and all sections leave room |
| ShimCommand.InsertedImage | symredirect.cpp:590-600 | the header stays well formed, all old commands keep place and number, the new one comes last, and no byte outside it and the two counters changes |
| ShimCommand.InsertedLibraries | symredirect.cpp:53-79 | every old ordinal names the same library and the next one names the shim library |
| ShimCommand.EnsuredImage | symredirect.cpp:580-604 | afterwards the lookup at the shim ordinal gives the shim library, so both ordinal counters agree |
| ShimCommand.EnsuredTwice | symredirect.cpp:505-508 | a second run finds that command and has exactly one outcome, changing nothing |
| SymbolRedirect.RedirectSymbols | symredirect.cpp:612-649 | the loop over the undefined symbols: each gets its redirected form, the others stay, and it aborts exactly if one of them does |
| SymbolRedirect.RedirectImports | symredirect.cpp:664-725 | the same over the imports, with 8-bit and 16-bit ordinal fields |
| SymbolRedirect.RedirectedSymbol | symredirect.cpp:644-647 | a redirected symbol's own reading of the packed field gives the shim ordinal, special and weak readings included, and nothing else of it has changed |
| SymbolRedirect.SymbolRedirectedExactly | symredirect.cpp:616-648 | which symbols are redirected, by the bits of the entry: a shim API that is no weak definition and names a system library in the upper byte of its description |
| SymbolRedirect.KeptSymbol | symredirect.cpp:616-648 | every other symbol is left as it is or refused, the latter only for a shim API |
| SymbolRedirect.RedirectedImport | symredirect.cpp:668-720 | a redirected import reads the shim ordinal from its bit field, and nothing else of it has changed |
| SymbolRedirect.ImportRedirectedExactly | symredirect.cpp:664-720 | which imports are redirected, by the bits of the entry: a shim API that names a system library |
| SymbolRedirect.KeptImport | symredirect.cpp:668-720 | every other import is left as it is or refused |
| SymbolRedirect.SymbolTwice | symredirect.cpp:616-648 | redirecting a symbol again changes nothing, in its own reading of the packed ordinal |
| SymbolRedirect.ImportTwice | symredirect.cpp:668-720 | the same for an import |
| SymbolRedirect.SecondRunChangesNothing | symredirect.cpp:580-726 | a second run over header, symbols and imports does not abort and changes nothing |
| ProcessTarget.SecondRun | symredirect.cpp:580-791 | a run on the result of a run does not abort, inserts no command, and leaves every symbol, import and byte of a table as it is; which tables it moves is decided by the tables of the first run |
| ProcessTarget.OnlySecondRun | symredirect.cpp:580-791 | there is no other outcome of a second run |
| ProcessTarget.SecondFile | symredirect.cpp:728-829 | the second run leaves the layout, the end of the file and the memory size alone if and only if it moves no table |
| Linkedit.Tail.Append | symredirect.cpp:750-756 | one append keeps file offset plus size of the segment equal to the end of the file and reads back |
| Linkedit.LayOut | symredirect.cpp:728-829 | all optional appends: the regions fill the file from its old end in order, read as expected, and the memory size is page-rounded and covers the segment; for a slice of a larger file nothing is written, and it fails exactly if a table was moved |
| Linkedit.FillOrdered | symredirect.cpp:737-820 | regions laid out this way are contiguous, disjoint and inside the file |
| Linkedit.LayoutExactly | symredirect.cpp:737-829 | the offset of every region: the bind table at the old end of the file, the lazy one, the string table, and the signature last; a table that was not moved keeps its place, and the memory size is the next whole number of pages |
| Linkedit.NamesKept | symredirect.cpp:797-807 | every symbol still reads the same name from the moved string table |
| PathLoop.TakeToken | jbroot.c:65-80 | one token is cut off the buffer in place, with the counter that over-counts by one for each slash consumed; exactly the split at slashes is processed and the counter ends at zero |
| PathLoop.NothingChanged | jbroot.c:65-144 | with no special token the loop reproduces the path byte for byte, repeated and trailing slashes included |
| Jbroot.CheckDotDot | jbroot.c:95-128 | the replacement of a ".." that stands at the relocated root or at the real root |
| Jbroot.AddToPath | jbroot.c:81-135 | one turn of the loop on the rebuilt path |
| Jbroot.FixPath | jbroot.c:24-151 | the loop over the buffers computes the token-wise rewriting and never lengthens the path |
| Jbroot.JbrootatAlloc | jbroot.c:155-194 | the translation into the real root, with its "/rootfs" cases |
| Chroot.ChrootRefinement | jbroot.c:65-194 | for every absolute path on every file system, resolving the translated path reaches exactly the file, or the failure, of the walk confined to the relocated root |
| Chroot.FixedTwice | jbroot.c:95-137 | rewriting ".." is idempotent on absolute paths |
| Chroot.LocateAfterReset | jbroot.c:101-110 | once a ".." has left the real root, the check of a relative path looks from the real root, whatever directory the path starts from |
| Chroot.SameTreatment | jbroot.c:101-124 | after that, a ".." is treated as in an absolute path if and only if the tokens before it lead to the same kind of place from both roots |
| Chroot.AddRelativeWalks | jbroot.c:81-135 | adding a token to a relative path is a step of the confined walk, if and only if a ".." after a reset is made what it should be |
| Chroot.RelativeRefinementExact | jbroot.c:65-194 | a relative path and all its prefixes reach what the confined walk from the directory reaches, if and only if every ".." after a reset is made what it should be |
| Chroot.RelativeRefinement | jbroot.c:65-194 | in particular when at every such ".." both roots agree on the kind of place |
| Chroot.RelativeAfterReset | jbroot.c:101-123 | a file system and the relative path "../rootfs/.." for which the refinement fails |
| Rootfs.AddToReverted | jbroot.c:257-292 | one turn of the reverse loop: a relocated root's name below the parent directory starts the path again |
| Rootfs.RevertPath | jbroot.c:204-318 | the reverse loop computes the token-wise reversal |
| Rootfs.RootfsPath | jbroot.c:338-347 | the reverse translation, which gives an empty or overlong path back |
| RootNames.OrdinaryReverted | jbroot.c:270-312 | a path in which no name of a relocated root stands in the directory of the relocated roots is put below "/rootfs" as it is, or stays as it is if it is relative, with such names elsewhere in it |
| RootNames.OutsideExactly | jbroot.c:270-312 | and every other path is not |
| RootNames.LastNameDecides | jbroot.c:270-285 | the last name in that directory decides: the result is what follows it |
| RootNames.BelowName | jbroot.c:270-312 | below a name in that directory, by whatever path the directory is reached, the reverse translation gives what follows the name |
| RoundTrip.OutAndIn | jbroot.c:155-318 | out and back in gives the path with its ".." rewritten, for every absolute path without a relocated root's name |
| RoundTrip.RootfsUndoesJbroot | jbroot.c:155-347 | without ".." the reverse translation undoes the translation if and only if the path is not "/rootfs" |
| RoundTrip.JbrootUndoesRootfs | jbroot.c:155-347 | the translation undoes the reverse one for paths of the real root outside every relocated root |
| RoundTrip.JbrootUndoesRootfsBelow | jbroot.c:155-347 | and for paths below the relocated root if and only if the inner path is not at or below "/rootfs" |
| RoundTrip.FixedLength | jbroot.c:65-144 | rewriting ".." never lengthens a path |
| RoundTrip.RevertedLength | jbroot.c:304-312 | the reversal lengthens a path at most by the prefix |
| UpdateLink.Links.Process | updatelink.c:34-88 | one line of the input on the table of links: which branch is taken, with the two roots passed over before anything is read, and what the link becomes |
| UpdateLink.LinkFollowsRoot | updatelink.c:69-88 | for any two valid names, a link into the old root becomes the link to the same place in the current one, and is then left alone |
| UpdateLink.LinkIsReplaced | updatelink.c:34-88 | a line for a link into any relocated root writes the link to the same place in the current one, and changes no other link |
| UpdateLink.LinkStays | updatelink.c:50-92 | a link that is relative, goes through ".jbroot", or points outside every relocated root is left alone, and which of the three is reported |
| UpdateLink.PassRelocates | updatelink.c:30-94 | after a pass that fails no assertion every listed link into a relocated root points to the same place in the current one |
| UpdateLink.PassFrame | updatelink.c:30-94 | a pass neither adds nor removes links, and leaves alone those that are not listed or are one of the roots |
| UpdateLink.SecondPassChangesNothing | updatelink.c:69-88 | an absolute link that was rewritten is not rewritten again |
| UpdateLink.StableKept | updatelink.c:30-94 | a pass over any list of links leaves alone every link whose target needs no rewriting |
| UpdateLink.PassTwice | updatelink.c:30-94 | a second pass over the same list, repeated lines and failing lines included, changes nothing when no target is rewritten twice |
| UpdateLink.SecondRunChangesNothing | updatelink.c:30-94 | the same from a condition on the targets of the links alone |
| JbrootName.Bootstrap | init.c:19-53 | the location is accepted exactly for a library path below a valid name with a non-zero value, and the reprinted name has that value |
| JbrootName.BasenameIs | init.c:34-35 | the last component of the location is found behind any number of trailing slashes |
| JbrootName.HexRoundTrip | init.c:42-43 | printing with leading zeros and reading back gives the value |
| JbrootName.StandardNameValue | common.c:17-53 | the standard spelling of a valid name is a valid name with the same value and without a slash |
| JbrootName.StandardLocationIsFixed | init.c:34-46 | standardising a standard location gives the same value |
| CheckBits.ValidExactly | common.c:7-15 | a value is valid if and only if each of the eight bit positions is set in an even number of its eight bytes |
| CheckBits.OneByteChanged | common.c:13-14 | changing any one byte of a valid value makes it invalid |
| CheckBits.PrintedUpper | init.c:42-46 | the printed name has sixteen upper-case digits |
| TempName.FillRandom | vroot_mktemp.c:251-256 | exactly the X before the suffix become padding characters, whatever they are |
| TempName.CheckBase | vroot_mktemp.c:264-281 | the directory at the last slash is looked at and the path is the same afterwards, on every exit |
| TempName.TurnInPlace | vroot_mktemp.c:296-321 | the inner loop turns the odometer by one in place and says whether it is back at its origin; the EIO branch is unreachable |
| TempName.PadsInOrder | vroot_mktemp.c:88-89 | the order of the padding characters |
| TempName.TurnCounts | vroot_mktemp.c:296-321 | turning leads from candidate number k to number k + 1, and from the last back to the first |
| TempName.RankOfCandidate | vroot_mktemp.c:296-321 | the k-th candidate has rank k in base 62 relative to the first |
| TempName.CandidateOfRank | vroot_mktemp.c:296-321 | every combination is the candidate of its rank |
| TempName.Search | vroot_mktemp.c:283-322 | the outer loop offers the candidates in order, ends after at most 62^n of them, and leaves the last one, or with EEXIST the first one, in the path |
| TempName.FindTempPath | vroot_mktemp.c:221-324 | the whole search on the array: all refusals in order, and on every exit nothing outside the X has changed |
| TempName.RefusedExactly | vroot_mktemp.c:232-249 | which templates are refused before anything is touched, and with which error |
| TempName.FaultOfDirectory | vroot_mktemp.c:264-281 | the directory is what stands before the last slash ahead of the X; it must be one, and the search does not begin where it is not or cannot be looked at |
| TempName.NoFault | vroot_mktemp.c:264-281 | a template without such a slash, or with one as its first character only, has no directory to look at |
| TempName.ErrorEnds | vroot_mktemp.c:287-291 | the search ends with the error of the action at the first name that has one, which stays in the path |
| TempName.NoNameTwice | vroot_mktemp.c:283-322 | no name is offered twice |
| TempName.EveryNameTried | vroot_mktemp.c:299-303 | EEXIST after turning down means that each combination was tried exactly once |
| TempName.SearchIsComplete | vroot_mktemp.c:283-322 | with an action that judges by the name alone and never gives up, the search succeeds if and only if some combination is acceptable |
| TempName.FirstAcceptable | vroot_mktemp.c:283-322 | and leaves the first acceptable one in odometer order |
| CachePath.Table.constructor | cache.c:7-17 | the empty table of a hundred slots |
| CachePath.Table.Find | cache.c:21-29 | finds the one entry that reads as the string, or none |
| CachePath.Table.Grow | cache.c:39-50 | doubling keeps every pointer at its index |
| CachePath.CapacityDoubles | cache.c:39-50 | the size is a hundred, doubled as often as it takes, and from a hundred entries on at most twice their number |
| CachePath.Table.CachePath | cache.c:19-55 | the pointer returned reads as the string, is the old one if there was one and fresh otherwise, entries stay pairwise distinct and at their index, and there is room again on exit |
| CachePath.InternedDistinct | cache.c:23-37 | one call keeps the entries distinct and extends the table at most by the string |
| CachePath.PlaceStays | cache.c:31-50 | the place of a string never changes afterwards |
| CachePath.SamePlace | cache.c:19-55 | over any sequence of calls, two are given the same place exactly if their strings are equal |
| CachePath.CacheAll | cache.c:19-55 | the same on the table itself: equal pointers exactly for equal strings, whatever doublings happen in between |
| CachePath.JbrootCached | jbroot.c:322-334 | the cached translation reads as the allocated one |
| CachePath.RootfsCached | jbroot.c:351-363 | the cached reverse translation reads as the allocated one |
| PathSearch.NextField | vroot_exec.c:163-164 | cutting one field off the path is the first step of splitting it at colons |
| PathSearch.Compose | vroot_exec.c:188-191 | the candidate's name with its NUL fits the buffer |
| PathSearch.ShiftArguments | vroot_exec.c:202-225 | the arguments of the shell: the script after the first one, or "sh" and the script when there are none |
| PathSearch.RunByShell | vroot_exec.c:201-228 | the request to the shell, which settles the search |
| PathSearch.ExecvPe | vroot_exec.c:131-264 | the whole loop, entered in its middle for a name with a slash, against the recursive search |
| PathSearch.ExecTriesInOrder | vroot_exec.c:164-263 | the requests are the candidates in order up to the first that settles the search; otherwise the error is EACCES if one was denied and else the last one, which no later assignment replaces |
| PathSearch.ExecDecidedBy | vroot_exec.c:193-263 | the search by the answers of the system to the requests: errors of a missing file, and files that cannot be looked at, are passed; a success, E2BIG, ENOMEM, ETXTBSY and ENOEXEC end it, and so does any other error of a file that can be looked at, except EACCES, which is remembered |
| PathSearch.SpawnOne | vroot_exec.c:352-405 | the classification for a new process, where a success is looked at like an unknown error |
| PathSearch.PosixSpawnp | vroot_exec.c:289-413 | the twin loop, which stops at a directory that is too long |
| PathSearch.SpawnDecidedBy | vroot_exec.c:352-412 | the same for a new process, where a started program must be possible to look at, and the error is ENAMETOOLONG before a directory that is too long and else EACCES or ENOENT |
| PathSearch.SpawnFollowsExec | vroot_exec.c:325-412 | both searches make the same requests and end alike except in two named cases, and what happens in these |
| PathSearch.StartedOnce | vroot_exec.c:390-404 | a started process ends the search if and only if its file can still be looked at |
| PathSearch.StartedTwice | vroot_exec.c:390-410 | a case where two processes are started and the answer is ENOENT |
| PathSearch.CandidatesInOrder | vroot_exec.c:164-191 | the candidates are those of the fields in order, an empty field being the current directory, with exactly the overlong fields left out |
| PathSearch.LeadingCandidates | vroot_exec.c:325-346 | the search for a new process has the candidates before the first overlong field, and stops there |
| PathSearch.SlashName | vroot_exec.c:310-315 | for a name with a slash both searches have the same answer if and only if the request settles the search or is denied, or is refused and leaves ENOENT |
| PathSearch.TwinSearches | vroot_exec.c:131-413 | under the conditions on stat and on the lengths, both searches make the same requests for every name, path and system |

## Left out

- Chroot.RelativeRefinementExact: is about a path together with all its prefixes; a path in which one wrong step makes up for another can still end at the right place.
- Rewriter.RebindTable: takes the header and the table as two arrays that do not overlap; in the tool both are parts of one mapping.
- Leb128.ReadSignedAt: groups at a shift of 64 or more, which C leaves undefined, add nothing to the value; the position after the number is right for any length.
- Linkedit.LayOut: takes rebuilt tables to be non-empty, which `Rebind.MovedIsNotEmpty` proves of the rewriter, and the asserted sizes of slice and segment to agree; that offsets and sizes in the load commands have 32 bits is not modelled.
- Jbroot.FixPath: excludes a path of exactly PATH_MAX - 1 characters, for which the move inside the buffer copies one byte from beyond it.
- Rootfs.RevertPath: excludes the same length.
- RoundTrip.OutAndIn: takes the translated path to fit PATH_MAX, because a longer one is given back untranslated.
- UpdateLink.Links.Process: takes the targets to be short enough for the translation buffers, and the identities that `lstat` compares from an oracle.
- TempName.FindTempPath: the action and the look at the directory get the path before its translation; both are oracles, so the translation is part of them.
- CachePath.Table.constructor: the double-checked initialisation, which publishes the array before the sizes, is not modelled; calls are taken one at a time under the lock.
- PathSearch.ExecvPe: the message written for a directory that is too long is taken to leave `errno` alone.
- A symbol name in a bind table that runs to the end of the table is a failure in the model; the tool would read on.
- A `DO_BIND` before any symbol is a failure in the model; the tool would look up a null pointer.
- Threaded binds (0xD0) are opaque opcodes that are copied and perform no bind.
- Offsets from stub code into a lazy table that has moved live in code bytes the tool does not change.
- Section offsets of 2^31 and more, which the tool would see as negative, and the other load commands of the header.
- Entries of symbol and import arrays rewritten before an abort: the tool never writes such an image back.
- The fields of a symbol or import that the tool does not touch beyond those listed in the datatypes, and the lookup of its name in the string pool.
- Spellings of a jbroot name that `strtoull` accepts beyond sixteen hexadecimal digits.
- The loop over standard input of updatelink.c is the fold of one line; the file system that paths are resolved in stays the same while links change.
- The wrapper layer (vroot.c, vroot.cpp, vrootapi.c, jbroot.cpp, jbroot.m, stub.h), result patching (vroot_rootfs.c), symbol lookup (vroot_dlfcn.c), the command-line tool and all scripts: one call each, or bound to the operating system.
- Reading, mapping and writing files, fat headers, copying, logging, saving and restoring `errno`, environment variables and allocation failure.
