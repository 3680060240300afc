# Verification of dracut-install

This project models the parts of dracut-install where correctness is hard to see from one
function body, and proves what they promise:

- **Library closure** (`LddModel`, `LddConservation`, `LddTermination`, `LddClosure`, `LddReach`,
  `LddPaths`, `LddProvenance`, `LddRpath`, `LddSupply`, `LddLone`, `LddSteps`, `LddLimits`,
  `LddFiles`, `LddKeys`, `LddInstall`): `ldd` and `Ldd::recurse` as a transition system. Any
  number of workers take tasks from one queue and race on one `visited` set. Every
  `visited.write().unwrap().insert(..)`, every existence test and every `enqueue` is a step of its
  own; the theorems quantify over all interleavings (`run`) of such steps. A worker's step is a
  function from its local state to an `Effect`, and `Next` applies the effect to the shared state.
- **Path strings, the canonicalisation cache and `$ORIGIN`** (`UnixPath`, `CanonCache`, `Substitute`).
  `LddKeys` connects them with the closure: under which spelling a library is claimed and returned.
- **Sparse copy** (`SparseCopy`): the extent loop with its three mechanisms against a kernel whose
  byte counts, rejections and signals are arbitrary streams.
- **Kernel module closure** (`ModuleClosure`): the depth-first search over a possibly cyclic graph.
- **ELF sections** (`Bytes`, `DynamicSection`, `ElfSections`): decoding the dynamic section, and
  loading along `sh_link` with the section taken out of the table. The format is that of the
  System V gABI, chapter 4 "Sections" and "String Table", and chapter 5 "Dynamic Section".
- **ld.so.cache** (`LdsoCache`): search, byte-order guess, decoding and grouping.
- **Installing paths** (`RelativeLink`, `ClonePath`): relative link texts and the recursive installer.

`LddReach` covers every destination, filled or empty, for files without RPATH and RUNPATH;
`LddSupply` and `LddLone` cover RPATH and RUNPATH. `LddFiles` is the part of `recurse` that reads a
file's own directories and needed names out of its dynamic sections, and `LddInstall` is
`install_files_ldd`, the closure followed by the installation.

Loops and objects that the source updates step by step are methods and classes here, each proved
against a specification; the theorems are lemmas about those specifications. `Counting` holds
shared helpers.

Where a promise does not hold for all inputs, the code is kept as it is, and a condition is proved
next to a failing input. The condition is exact unless it is called sufficient:

- `copy` with sparse handling fails for every source that ends in a hole
  (`SparseCopy.Copier.Copy`: a result exists exactly if the last byte lies in a data extent).
- `copy` without sparse handling relies on file offsets that are never set, so a mechanism that is
  rejected after it has moved bytes spoils the contents or the count. A schedule copies every source
  exactly if and only if it rejects mechanisms only before they have moved a byte
  (`SparseCopy.ScheduleExact`); `SparseCopy.LateSwitchCorrupts` is a run that goes wrong.
- A relative link leads back to its source only under the condition of
  `RelativeLink.RelativeLinkExact` (`RelativeLink.RematchLeadsAstray`).
- A link to its own directory or to one above it cannot be installed: the text computed for it is empty
  exactly then (`RelativeLink.EmptyRelative`), and no symbolic link has an empty text
  (`ClonePath.EnclosingLinkFails`).
- The byte-order guess of the cache decoder is exact up to a size bound and wrong just above it
  (`LdsoCache.GuessExact`, `LdsoCache.GuessWrongAboveBound`).
- On cyclic `sh_link` chains success depends on where loading starts
  (`ElfSections.CycleDependsOnStart`); `ElfSections.LoadExact` is the condition.
- With RPATH the dependency search can lose a library, because a visited path ends it whether the path
  exists or not. For a file with one dependency as the only seed the condition is exact
  (`LddLone.LoneSearchExact`); for any number of files it is sufficient (`LddSupply.RpathClosure`).
  Two programs that share an RPATH (`LddLimits.SharedWorldLoses`) and a program whose RPATH names a
  default directory (`LddLimits.DefaultDirLoses`, `LddLimits.DefaultDirWorldFits`) lose theirs.
- A dependency whose only copy in a default directory is installed already counts as missing, and the
  file's remaining dependencies are dropped (`LddLimits.InstalledCopyFails`,
  `LddLimits.InstalledWorldLoses`). Without RPATH no file fails if and only if every reachable
  dependency is cached or has a default candidate that is wanted or a seed (`LddReach.NoFailureExact`).
- Replacing `$ORIGIN` element by element means what replacing it in the whole string means if and only
  if the file's directory has no ':' in its name (`LddProvenance.OwnPathsMeaning`).

## Model

| member | source | states |
|---|---|---|
| LddConservation.StepBalance | src/elfkit/ldd.rs:131-197 | one worker step moves each path's tokens (task, work, held claim, result) without gain or loss, except for one token per fresh claim of an existing, uninstalled path; and it claims only unvisited paths |
| LddConservation.ConservedByTake | src/lib.rs:119-141 | fetching a task keeps the conservation law; a path already in the destination is dropped |
| LddConservation.ConservedByWork | src/elfkit/ldd.rs:131-197 | every other worker step keeps the conservation law |
| LddConservation.ConservedAlways | src/lib.rs:103-142 | after any interleaving each path is queued, in work, held, returned or skipped exactly as often as the seeds and the claims call for |
| LddConservation.OutputExact | src/lib.rs:119-142 | the returned multiset, path by path: seeds as often as given, other paths once if visited and existing, nothing already installed |
| LddConservation.NothingLostNothingExtra | src/lib.rs:103-142 | for existing seeds the returned set is exactly the visited paths that exist and are not in the destination |
| LddConservation.ExactlyOnce | src/lib.rs:427-444 | no path is returned twice if and only if no uninstalled seed is given twice |
| LddConservation.NeverTwice | src/elfkit/ldd.rs:138-146 | at no moment of a run is a path in two places, if it is at most once among the seeds |
| LddTermination.StepTrade | src/elfkit/ldd.rs:138-146 | a worker step can create a task or a held claim only at the price of an unclaimed existing file |
| LddTermination.SearchStepShrinks | src/elfkit/ldd.rs:131-194 | each step of the candidate search leaves strictly less of it |
| LddTermination.StepShrinks | src/elfkit/ldd.rs:131-194 | every enabled step decreases the lexicographic measure (unclaimed existing files, held claims and queue; files being opened; search steps left) |
| LddTermination.EveryScheduleStops | src/lib.rs:119-142 | no infinite schedule exists, cyclic library dependencies included |
| LddTermination.NeverStuck | src/lib.rs:119-142 | while something is queued or in work some worker can step, so runs end only by returning |
| LddTermination.TaskBound | src/lib.rs:119-142 | a run starts at most as many tasks as there are seeds and existing files that are no seeds |
| LddTermination.Run | src/lib.rs:90-143 | `ldd` under an arbitrary scheduler ends in a quiescent reachable state with exactly the specified result |
| LddClosure.StepPlaced | src/elfkit/ldd.rs:131-191 | a worker leaves a dependency only when its cache values, or its first default candidate, have been claimed by someone |
| LddClosure.PursuitStep | src/elfkit/ldd.rs:173-191 | between two default candidates a worker does not give up: the candidate exists, or the next one is visited, or it still pursues |
| LddClosure.ClaimPursues | src/elfkit/ldd.rs:179-187 | whoever claims a default candidate is the one that pursues it |
| LddClosure.KeptAlways | src/elfkit/ldd.rs:131-193 | the chain invariant holds in every interleaving: a default candidate claimed in vain has its successor visited or in pursuit, and behind the last one some file has failed |
| LddClosure.Closure | src/elfkit/ldd.rs:151-191 | without RPATH and RUNPATH and with keys that do not clash, everything a sequential resolver picks for a successfully processed file is returned or already installed |
| LddPaths.ClosureForPlainNames | src/elfkit/ldd.rs:151-191 | the same from facts about names: slash-free dependencies, library directories with distinct canonical forms, cache values ending in their key |
| LddPaths.DefaultKeysDistinct | src/elfkit/ldd.rs:173-179 | a default candidate key determines the dependency and the directory |
| LddPaths.CacheKeysApart | src/elfkit/ldd.rs:151-159 | a cache value never claims the default key of a dependency the cache does not list |
| LddKeys.SearchKeyIs | src/elfkit/ldd.rs:134-135 | a candidate is claimed as the dependency's name below the canonical form of the searched directory, or below the directory as written if it has none |
| LddKeys.SameCandidate | src/elfkit/ldd.rs:133-175 | two search candidates are one if and only if their names and their canonical directories are equal |
| LddKeys.ClaimsAreCanonical | src/elfkit/ldd.rs:131-191 | in every run each visited path is a seed, a needed name below the canonical form of a searched directory, or a cache value with its directory canonicalised |
| LddKeys.VisitedSettled | src/elfkit/ldd.rs:138-179 | in every run canonicalising a visited path again changes nothing |
| LddKeys.NoTwoSpellings | src/lib.rs:103-142 | no complete run returns one file under two spellings of its directory |
| LddReach.ChosenIsPicked | src/elfkit/ldd.rs:151-191 | into an empty destination, what the search chooses is what a sequential resolver picks |
| LddReach.ClaimSound | src/elfkit/ldd.rs:131-191 | a wanted path that is claimed is chosen for the claiming file's dependency, so it is reachable |
| LddReach.SoundAlways | src/elfkit/ldd.rs:131-194 | for any destination, every visited wanted path, uninstalled task, worker and result is reachable from the uninstalled seeds |
| LddReach.NoFailureExact | src/elfkit/ldd.rs:193 | in every complete run no file misses a dependency if and only if every dependency of a reachable file is cached or has a default candidate that ends the search |
| LddReach.OutputIsReachable | src/lib.rs:90-143 | for any destination only reachable files are returned, and exactly those if no file fails |
| LddReach.ScheduleIndependent | src/lib.rs:90-143 | for any destination, two complete runs with any numbers of workers return the same multiset, if no file fails |
| LddProvenance.OwnPathsMeaning | src/elfkit/ldd.rs:92-120 | a file's own directories are the ':'-separated elements of its RPATH and RUNPATH strings with `$ORIGIN` replaced in the whole strings, for all files at a path, if and only if the path's directory has no ':' in its name |
| LddProvenance.EverythingExplained | src/elfkit/ldd.rs:67-197 | for any RPATHs: a worker searches exactly the directories of a line of files, from a seed to its own file, each of which may find the next one in the directories of the line so far; and every visited path is a seed or a place where the file at the end of a line looks for a needed name |
| LddProvenance.SeedSearches | src/lib.rs:112-115 | a seed inherits nothing: it searches exactly its own directories |
| LddProvenance.OriginOfJoin | src/elfkit/ldd.rs:97-101 | `$ORIGIN` stands for the directory of the file, for any file in a directory without trailing separators |
| LddRpath.NoTrap | src/elfkit/ldd.rs:133-191 | under the condition, whatever the order of the search directories, a search that has found nothing does not come to a missing path twice |
| LddSupply.OwnStep | src/elfkit/ldd.rs:131-194 | a step of the file's own worker finds the library, fails, or goes on with everything it passed accounted for |
| LddSupply.AlwaysOnTrack | src/elfkit/ldd.rs:131-194 | in every interleaving the library was seen, the file failed, or its search still goes on and alone has looked where the library is missing |
| LddSupply.RpathClosure | src/elfkit/ldd.rs:131-194 | any RPATHs, files and workers: if no other file looks where the library is missing, and the search comes to no such place twice, a processed file has its library returned or installed |
| LddSupply.RpathClosureAmongAll | src/elfkit/ldd.rs:131-194 | the same with the condition on all files that lines from the seeds lead to |
| LddLone.TrapLoses | src/elfkit/ldd.rs:133-149 | a search that comes to a missing path twice loses the library in a complete run that counts the file as processed |
| LddLone.LoneSearchExact | src/elfkit/ldd.rs:131-194 | for a file with one dependency as the only seed and any RPATH, cache and default directories: the library is supplied in every complete run if and only if the search comes to no missing path twice before an existing one, or a library it may find is there already |
| LddLimits.RpathLosesLibrary | src/elfkit/ldd.rs:133-149 | two files that share a search directory without the library: a complete run in which the second file counts as processed, its own copy exists, and nothing it may find is returned or installed |
| LddLimits.SharedWorldLoses | src/elfkit/ldd.rs:133-149 | such a filesystem with the default directories of `ldd` |
| LddLimits.DefaultDirLoses | src/elfkit/ldd.rs:173-189 | a lone file whose RPATH names the first default directory may lose the library in the second one |
| LddLimits.DefaultDirWorldFits | src/lib.rs:94-94 | such a filesystem with the default directories of `ldd` |
| LddLimits.InstalledCopyFails | src/elfkit/ldd.rs:179-193 | with the copies of its first dependency in default directories installed already, a lone seed fails in every complete run and nothing else is returned |
| LddLimits.InstalledWorldLoses | src/elfkit/ldd.rs:179-193 | such a filesystem, in which no complete run returns the second dependency |
| LddFiles.AddDirectories | src/elfkit/ldd.rs:92-106 | the loop over the elements of one search path adds exactly its directories |
| LddFiles.ReadFile | src/elfkit/ldd.rs:86-129 | the loop over the sections yields the inherited and own directories and the needed names of the file, every dynamic section decoded by itself, although loading changes the table on the way; it fails if some dynamic section does not decode, and does not fail if every one can be loaded first |
| LddFiles.FileOfOneMore | src/elfkit/ldd.rs:91-126 | an RPATH or RUNPATH entry adds its string to the search paths, a NEEDED entry its name to the dependencies, and no other entry adds anything, by the numbers of the tags |
| LddInstall.InstallFilesLdd | src/lib.rs:145-167 | under any scheduler, on success the destination holds what was there and exactly the reachable files with their ancestors and symlink targets, and everything a sequential resolver picks for them; it succeeds if and only if all of that can be installed; earlier entries are unchanged, after a failure too unless cloning a reachable file halts without putting permissions back |
| LddInstall.PathNamesJoin | src/lib.rs:158-164 | the names of a returned path are those of its directory followed by its file name |
| LddInstall.PathNamesExact | src/file/mod.rs:142-149 | the absolute path put together from a list of names has exactly these names, in order; the root has none |
| Substitute.ReplaceSlice | src/elfkit/ldd.rs:14-38 | the index loop computes the left-to-right replacement |
| Substitute.ReplaceAbsent | src/elfkit/ldd.rs:14-38 | without an occurrence nothing changes |
| Substitute.ReplaceLeftmost | src/elfkit/ldd.rs:24-32 | the leftmost occurrence is replaced and replacement resumes right behind it; with ReplaceAbsent this determines the result |
| Substitute.ReplaceBarrier | src/elfkit/ldd.rs:96-104 | a symbol not in `from` separates the replacement into two independent halves |
| Substitute.SplitRejoin | src/elfkit/ldd.rs:96 | splitting at a separator loses nothing and leaves separator-free pieces |
| Substitute.ReplaceCommutesWithSplit | src/elfkit/ldd.rs:96-104 | replacing in each ':'-separated element and rejoining equals replacing in the whole string, for any `to` |
| Substitute.SplitOfReplace | src/elfkit/ldd.rs:96-104 | if `to` has no separator, the pieces of the replaced string are the replaced pieces |
| UnixPath.SplitJoin | src/elfkit/ldd.rs:199-206 | parent and file name of a joined path are the trimmed directory and the name |
| UnixPath.TrimExact | src/elfkit/ldd.rs:199-202 | what is ignored at the end of a path: separators and `.` components, all of them and nothing else |
| UnixPath.ParentOfJoin | src/elfkit/ldd.rs:199-202 | the parent of a name joined to a clean directory is that directory |
| UnixPath.JoinInjective | src/elfkit/ldd.rs:134-135 | a joined path determines the name and the directory prefix |
| CanonCache.Cache.Canonicalize | src/elfkit/ldd.rs:208-223 | returns what the uncached lookup would, keeps the cache coherent, and stores exactly the successful answer |
| CanonCache.Cache.CanonicalizePath | src/elfkit/ldd.rs:199-206 | the cached `canonicalize_dir` equals the uncached one |
| CanonCache.CacheRefinesRealpath | src/elfkit/ldd.rs:208-223 | under every interleaving of lookups, computations and inserts by any number of callers, every answer is the uncached one |
| CanonCache.SameKey | src/elfkit/ldd.rs:199-206 | two spellings claim the same visited key exactly if they name the same file in the same directory, canonical or, where that fails, as written |
| CanonCache.SameCanonicalKey | src/elfkit/ldd.rs:199-206 | with canonical directories: exactly if file name and canonical directory are equal |
| CanonCache.KeyIdempotent | src/elfkit/ldd.rs:199-206 | if resolved directories are absolute, clean and resolved already, the key of a key is the key itself |
| SparseCopy.NextData | src/file/mod.rs:328-357 | SEEK_DATA: the first byte at or behind the offset in a data extent (`lseek()`, System Interfaces volume of POSIX.1-2024) |
| SparseCopy.NextHole | src/file/mod.rs:340-359 | SEEK_HOLE: the first byte at or behind the offset in a hole, the end of the file counting as one |
| SparseCopy.Kernel.CopyFileRange | src/file/mod.rs:374-403 | explicit offsets, partial counts of at least one byte clamped at the end of file, no effect on error |
| SparseCopy.Kernel.SendFile | src/file/mod.rs:409-429 | explicit source offset, implicit destination offset |
| SparseCopy.ReadWrite | src/file/mod.rs:446-462 | the innermost loop writes exactly the source bytes from the source offset on, for any partial reads and signals, and ends |
| SparseCopy.SparseTransfer | src/file/mod.rs:355-465 | a transfer within the extent at or behind `srcpos` makes everything below the new `srcpos` correct, although `srcpos` may lag behind `next_beg` |
| SparseCopy.Prepare | src/file/mod.rs:307-351 | the mode is sparse exactly if `ftruncate` works, extents can be queried and there is data; the first extent is found |
| SparseCopy.Locate | src/file/mod.rs:354-361 | the next extent is found whenever the last byte is data |
| SparseCopy.Copier.Transfer | src/file/mod.rs:373-465 | one attempt moves at least one byte and keeps the copy invariant of the mode, or rules out exactly one mechanism and changes nothing, or fails; it fails if and only if the mechanism in use answers with an error that is not among its fallback errors, or reading or writing fails; ENOSYS and EPERM rule a mechanism out for later copies too |
| SparseCopy.Copier.Copy | src/file/mod.rs:228-469 | terminates; every call uses the best mechanism not yet ruled out; it fails if and only if `ftruncate` fails for good, some call was answered with an error that is no fallback error, or the mode is sparse and the last byte is no data; sparse: a result is the source length with identical contents, for every schedule; not sparse: contents and count are determined by what each mechanism moves under the schedule; exact if mechanisms are rejected only before they have moved a byte, in particular if one that has worked is not rejected later; which mechanisms later copies try is decided by the replies |
| SparseCopy.HardErrors | src/file/mod.rs:385-462 | the errors that end the copy, by mechanism; a kernel gives none of them exactly if no reply of any stream is one |
| SparseCopy.OneMoreCall | src/file/mod.rs:373-430 | a call of the mechanism that is due keeps the calls in order, and a rejection rules out that mechanism and no other |
| SparseCopy.OneHistory | src/file/mod.rs:322-465 | the schedule decides the calls: two logs under one schedule have no first place at which they differ |
| SparseCopy.EarlyRejection | src/file/mod.rs:373-429 | under a schedule only one mechanism moves anything if and only if the others are rejected before they have moved a byte |
| SparseCopy.LastingRejectsEarly | src/file/mod.rs:373-429 | that holds if no mechanism that has worked is rejected later |
| SparseCopy.ScheduleExact | src/file/mod.rs:353-466 | without sparse handling a schedule copies all sources of a length exactly if and only if it rejects mechanisms only before they have moved a byte, whether `ftruncate` has sized the destination or not |
| SparseCopy.DenseOutcome | src/file/mod.rs:353-466 | for given contents: exactly when the count and the contents of a finished copy are right |
| SparseCopy.DenseLateSend | src/file/mod.rs:404-429 | sendfile taking over late writes to offset 0 again: the contents are right exactly if the bytes coincide |
| SparseCopy.DenseLateRead | src/file/mod.rs:430-464 | reading that starts late copies the whole source again: the contents are right exactly if sendfile had moved nothing |
| SparseCopy.LateSwitchCorrupts | src/file/mod.rs:373-429 | a run of the copy in which sendfile takes over after one byte: it reports two bytes, and the contents are wrong |
| ModuleClosure.FilterModule | src/lib.rs:276-329 | accepts exactly by the name, path and symbol rules; for symbols, if some symbol matches with no unwanted one up to it |
| ModuleClosure.Installer.InstallModule | src/lib.rs:331-389 | adds only paths reachable from the module; on success what was added is closed under dependencies and looked-up pre soft-dependencies, and a failure comes from a reachable module |
| ModuleClosure.Installer.InstallAll | src/lib.rs:363-365 | the loop over dependencies settles every module of the list |
| ModuleClosure.Installer.InstallSoft | src/lib.rs:367-384 | the loop over pre soft-dependencies settles everything looked up; a missing name or failed lookup is an error |
| ModuleClosure.InstallModules | src/lib.rs:249-271 | installation is reached exactly if no accepted root leads to a soft-dependency that cannot be looked up, and then the visited set is exactly the paths reachable from accepted roots, independent of their order, for cyclic graphs too |
| ModuleClosure.CloseModule | src/lib.rs:362-384 | marking a module before its successors is sound once they are settled |
| ModuleClosure.VisitedContainsReachable | src/lib.rs:255-269 | a closed visited set with settled roots contains everything reachable |
| Bytes.IntegerRoundTrip | src/elfkit/utils.rs:62-73 | a word of either width is read back in the byte order it was written in |
| Bytes.DecodePlaces | src/elfkit/utils.rs:36-60 | the place value of each byte of a word: least significant first or last |
| Bytes.CStringOf | src/elfkit/strtab.rs:30-34 | a string laid out with its terminator is read back |
| DynamicSection.StringAt | src/elfkit/strtab.rs:25-35 | the NUL-terminated string at an offset, or the marker for an offset outside the table |
| DynamicSection.ReadEntries | src/elfkit/dynamic.rs:46-114 | the reading loop computes the specified entries, with its error cases |
| DynamicSection.DynamicRoundTrip | src/elfkit/dynamic.rs:46-114 | for both classes and byte orders, decoding an encoded list gives exactly the entries up to the first DT_NULL; without one, all entries, or an error if a lone tag follows |
| DynamicSection.NameRoundTrip | src/elfkit/dynamic.rs:65-93 | a NEEDED, RPATH or RUNPATH name is the string laid out at its offset |
| DynamicSection.EntryPlaces | src/elfkit/dynamic.rs:46-114 | an entry is decided by the words in its first 16 bytes, or 8 in a 32-bit file, and the next entry begins behind them; too few bytes end the list, or are an error after a tag |
| DynamicSection.EntryByNumber | src/elfkit/dynamic.rs:51-111 | the meaning of the entries with a content of their own, by the numbers of the tags, without a string table and with one |
| DynamicSection.NeedsL | src/elfkit/dynamic.rs:46-114 | the 32 bytes of a 64-bit little-endian section that needs the library "l", and what they decode to |
| ElfSections.FromReader | src/elfkit/section.rs:109-142 | what becomes of a section's content, by type, with its error cases; everything else of the section is kept |
| ElfSections.ReadByType | src/elfkit/section.rs:118-141 | a section is decoded from exactly the bytes at its offset, by the number of its type, with each error case |
| ElfSections.Elf.LoadFrom | src/elfkit/elf.rs:82-102 | take, recurse, restore: terminates on every link graph, succeeds exactly if the chain loads, and then restores header and name of every section and decodes exactly the chain |
| ElfSections.Elf.Load | src/elfkit/elf.rs:82-102 | the outermost call in terms of the table before it |
| ElfSections.DecodedServes | src/elfkit/dynamic.rs:33-42 | a loaded section serves as a string table exactly as its bytes would |
| ElfSections.LoadStep | src/elfkit/elf.rs:86-99 | reading a section after its linked one equals decoding it directly against the linked table's bytes; on a closing cycle only a pending dynamic section fails |
| ElfSections.AcyclicLoads | src/elfkit/elf.rs:82-102 | on acyclic links loading succeeds exactly if every section on the chain decodes by itself |
| ElfSections.LoadAgain | src/elfkit/section.rs:118-121 | loading again succeeds and changes nothing |
| ElfSections.LoadOrder | src/elfkit/elf.rs:82-102 | if two sections can be loaded, the order makes no difference |
| ElfSections.LoadLaidOut | src/elfkit/elf.rs:82-102 | in a file with a string table and a dynamic section laid out at the places their headers name, loading the dynamic section gives the entries up to the first DT_NULL against those strings |
| ElfSections.LoadExact | src/elfkit/elf.rs:82-102 | on any links, cyclic ones included, a section can be loaded if and only if every section along the links decodes by itself and no pending dynamic section among them links back to itself or to a section on the way to it |
| ElfSections.CycleDependsOnStart | src/elfkit/elf.rs:82-102 | on a cycle through a dynamic section and its string table loading succeeds from the one and fails from the other |
| LdsoCache.FindSubsequence | src/elfkit/ld_so_cache.rs:20-24 | the first occurrence, or that there is none |
| LdsoCache.ReadLdsoCache | src/elfkit/ld_so_cache.rs:33-118 | the decoder computes the specified result, with its error cases |
| LdsoCache.Refusals | src/elfkit/ld_so_cache.rs:36-76 | exactly which caches are refused, and how: no magic string, fewer than 48 bytes, another version, or sizes that account for all bytes in neither byte order |
| LdsoCache.PanicExact | src/elfkit/ld_so_cache.rs:78-112 | a cache that is not refused cannot be decoded if and only if a key or value of some entry is a position outside the string table |
| LdsoCache.CacheLayout | src/elfkit/ld_so_cache.rs:33-91 | where header, entries and strings of a laid out cache are, in byte offsets |
| LdsoCache.EntryLayout | src/elfkit/ld_so_cache.rs:93-112 | key and value of an entry are the words at offsets 4 and 8 of its 24 bytes |
| LdsoCache.GroupEntries | src/elfkit/ld_so_cache.rs:93-115 | the loop over the entries computes the grouping of all pairs, or fails at the first string outside the table |
| LdsoCache.GroupIsStable | src/elfkit/ld_so_cache.rs:113 | per key, all its values in the order of the entries, and no other keys |
| LdsoCache.SwapDecodes | src/elfkit/ld_so_cache.rs:64-65 | swapping a natively read word is reading it in the other byte order |
| LdsoCache.GuessExact | src/elfkit/ld_so_cache.rs:57-76 | a cache in the machine's order is never swapped; one in the other order is recognised exactly if its sizes do not also fit unswapped |
| LdsoCache.GuessRightBelowBound | src/elfkit/ld_so_cache.rs:57-76 | the guess is never wrong for a non-empty list below 24 * 65536 bytes |
| LdsoCache.GuessWrongAboveBound | src/elfkit/ld_so_cache.rs:57-76 | sizes just above the bound for which it is wrong |
| LdsoCache.CacheRoundTrip | src/elfkit/ld_so_cache.rs:33-118 | any laid out entry list, in either byte order, on either kind of machine and behind any prefix without an earlier match, decodes to the stable grouping, unless its sizes are ambiguous |
| LdsoCache.CacheRoundTripBelowBound | src/elfkit/ld_so_cache.rs:33-118 | unconditionally below the bound, the empty list included |
| RelativeLink.ConvertAbsRel | src/file/mod.rs:93-125 | the zip loop computes one `..` per differing pair followed by the kept source components; no parent is an error |
| RelativeLink.ResolveRelative | src/file/mod.rs:93-125 | where the computed text leads |
| RelativeLink.RelativeLinkExact | src/file/mod.rs:93-125 | it leads to the source if and only if the source has at least as many components as the parent and no pair agrees again after the first difference |
| RelativeLink.EmptyRelative | src/file/mod.rs:104-122 | the text is empty if and only if the source is the parent or above it |
| RelativeLink.RematchLeadsAstray | src/file/mod.rs:106-113 | a link that leads elsewhere |
| ClonePath.Cloner.LinkText | src/file/mod.rs:191-203 | the text given to an installed link |
| ClonePath.TargetResolves | src/file/mod.rs:177-187 | following the text of a link from its own directory leads to what is cloned as its target |
| ClonePath.Cloner.InstallLink | src/file/mod.rs:176-203 | a link is made after its target; it halts exactly if the target cannot be cloned, in a destination in which no link lacks its target |
| ClonePath.Cloner.Install | src/file/mod.rs:176-218 | making the entry itself: nothing is lost, and on success only images of needed entries are added; a link to its own directory or one above it fails; it ends without putting permissions back only at a special file, which is the panic, or at a link whose target cannot be cloned, and unless it does earlier entries are unchanged |
| ClonePath.Cloner.ClonePath | src/file/mod.rs:133-226 | succeeds if, and into a destination in which no link lacks its target only if, everything needed and not there yet can be installed; on success the path is there and only images of needed entries were added; every earlier entry is unchanged with its permissions, after a failure too, unless the call halts at a special file or at a link whose target cannot be cloned; in that case nothing is lost but permissions, and into such a destination a read-only parent that was there is left writable exactly then; terminates for acyclic links |
| ClonePath.Restored | src/file/mod.rs:170-222 | making the parent writable and putting its permissions back leaves only what was added in between |
| ClonePath.NeedsBelow | src/file/mod.rs:155-188 | what a path needs never includes a link of higher rank, and for an ordinary path are its ancestors |
| ClonePath.ClonedExactly | src/file/mod.rs:151-188 | a successful call leaves exactly what was there and what the path needs: itself, its ancestors, its symlink targets and theirs |
| ClonePath.LinkLeadsHome | src/file/mod.rs:188-203 | a link can be installed and leads to the installed copy of its target if and only if the condition on names holds, wherever the destination root is |
| ClonePath.EnclosingLinkFails | src/file/mod.rs:120-130 | cloning the link `/a/l` to `/a` fails |
| ClonePath.InstallFiles | src/lib.rs:158-167 | succeeds if and only if everything the listed files need can be installed, and then installs exactly that; otherwise stops at the first failure with nothing lost, and with every earlier entry unchanged if no file halts without putting permissions back |

## Left out

- Reading the ELF header, the segment table and the section header table, and resolving section names: straight-line field reads.
- The transition system takes the RPATH, RUNPATH and NEEDED strings of a file as given (`World.elf`); `LddFiles.ReadFile` computes them. The panic of a worker on a section that cannot be loaded, and of paths without a parent, is not a step of the system.
- The set of existing paths is finite and consists of path strings; other spellings of an existing file count as paths of their own, as they do in `visited`.
- The order in which rayon collects results: the result is a multiset.
- The `canonicalize_dir` of the seeds: seeds are given as canonical paths, and its panic on a missing directory is not modelled.
- LddClosure.Closure: covers worlds without RPATH and RUNPATH, because with them the property is false (`LddLimits.RpathLosesLibrary`).
- LddSupply.RpathClosure: a sufficient condition for several files; the exact one is proved for a lone file with one dependency only, because with more files it depends on which other searches can reach the library.
- LddReach.OutputIsReachable: equality needs that no file fails (`LddReach.NoFailureExact`), because a failing file drops its remaining dependencies, and which of several users of a missing library fails depends on the schedule.
- LddInstall.InstallFilesLdd: covers files without RPATH and RUNPATH of which none fails; that the search and the installation see the same filesystem is an assumption (`SameFilesystem`).
- SparseCopy.Copier.Copy: the destination is a regular file and the source does not change; the 63-bit range of file sizes, ownership, permissions and ACLs are left out, and seeking to an absolute offset does not fail.
- SparseCopy.DenseOutcome: with a late switch the contents of one particular source can still be right by accident; that case is a condition on the source bytes.
- ModuleClosure.InstallModules: handles that libkmod returns for one path are taken to describe one module, and the resolution of the module arguments to roots is left out.
- Regular expressions: the module filters are arbitrary predicates.
- ClonePath.Cloner.Create: a directory that only its group or others may write counts as writable, as it does for the source's test for read-only directories; the failure of an owner without the right to write is not modelled.
- RelativeLink.ConvertAbsRel: works on components, so a trailing separator in the link text is not visible.
- ClonePath.Cloner.ClonePath: link texts are free of `.` and `..`, ancestors are real directories in source and destination, and links are acyclic; otherwise the recursion need not end. The umask, ownership and ACLs are left out, and `copy` is an operation that succeeds or fails per file. Which directories above the target of a link stay writable after a halt inside its cloning is bounded, not listed.
- LdsoCache.ReadLdsoCache: string offsets outside the table are one error, whether the subtraction or the slice panics.
- Command line handling, logging, module alias listing, firmware and the libkmod bindings.
