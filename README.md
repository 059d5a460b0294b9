# Coverage-instrumentation passes, modelled in Dafny

This project models three LLVM module passes from a coverage-instrumentation
prototype, together with what their inserted code does at run time.

- **EnableProfiling** (`enable_profiling.dfy`, `record_cov.dfy`)
  - Reads an index file into the static map `TaintedFuncs` whenever the map is still empty: on the first module, and again on every later module while the file is missing or has no lines. Each line has the form `[+]idx name`.
  - Leaves alone any module whose name starts with `../../base`, `../../testing`, `../../buildtools` or `../../chrome/test`.
  - Puts a `record_cov` probe in front of every listed function that has a body. The probe sets bit `idx % 32` of word `idx / 32` in a shared-memory bitmap, at most once per function, and attaches the segment the first time it is needed.
  - Writes the module to `/home/chenxiong/<key>`.
- **EnableMarking** (`enable_marking.dfy`)
  - Reads a file with lines `file idx1 fn1 idx2 fn2 ...` into the static two-level map `FunctionIndexes`. It does so on the first module only, because that run always leaves an entry for the module in the map.
  - Gives every indexed function of the module that has a body a guard. The guard sets the private byte `is_marked_<id>` to 1 the first time the function is entered.
- **HunDun** (`hundun.dfy`)
  - With `shm_size == 0` it only writes the module to `<out_dir>/<key>.bc`.
  - Otherwise every function with a body gets an AFL-style probe. The probe stores 1 into `__afl_area_ptr[random() % shm_size]`.

Shared pieces:
- `strings.dfy` holds the string helpers every pass carries a copy of:
  - `replace`, proved as an in-place loop against a functional specification;
  - `split`, as the `getline` loop;
  - the module key (`/` becomes `@`, `.` becomes `$`);
  - `stoi` on index tokens.
- `index_maps.dfy` holds the "store each line into a map" fold that both index readers perform, with its lemmas.
- `ir.dfy` is the abstract module: a name plus, in order, each function's name and the three facts that decide whether a pass may touch it.
- `wrappers.dfy` holds `Option`.

Each pass is a class:
- For EnableProfiling and EnableMarking, the static map is a separate `Statics` object. Its constructor is the map's one definition per process, and every pass object receives the same one. So the map survives from one module to the next, and from one pass object to the next.
- For HunDun, the class has the two `const` fields its constructor sets.

The per-function effect of `runOnModule` is returned as a sequence with one outcome per function, in order. The outcome is the probe or mark inserted, or why the function was skipped.

The index file's content is a parameter: `None` means the file could not be opened. The value `random()` returns for each function is also a parameter.

The three copies of `replace` and `split` are identical:
- EnableProfiling.cpp:52-75;
- EnableMarking.cpp:52-75;
- HunDun.cpp:55-63, which has `replace` only.

The table cites the EnableProfiling copy.

## Model

| member | source | states |
|---|---|---|
| Strings.Find | llvm/lib/Transforms/Scalar/EnableProfiling.cpp:56 | `str.find(from, start_pos)` returns the first occurrence at or after `start_pos`; None (`npos`) means there is no occurrence from there on |
| Strings.Replaced | llvm/lib/Transforms/Scalar/EnableProfiling.cpp:52-54 | an empty `from` leaves the string unchanged; a `to` as long as `from` keeps the length |
| Strings.Replace | llvm/lib/Transforms/Scalar/EnableProfiling.cpp:52-60 | the in-place loop ends with exactly the left-to-right, non-overlapping replacement `Replaced`. It resumes after the inserted `to`, and it terminates even when `to` contains `from` |
| Strings.ReplacedChar | llvm/lib/Transforms/Scalar/EnableProfiling.cpp:55-59 | with one-character `from`/`to`, the length is kept, positions holding `from` become `to`, and every other position is unchanged |
| Strings.PathKey | llvm/lib/Transforms/Scalar/EnableProfiling.cpp:321-326 | the module key has the module name's length, maps `/` to `@` and `.` to `$` position by position, and contains no `/` and no `.` |
| Strings.PathKeyInjective | llvm/lib/Transforms/Scalar/EnableProfiling.cpp:324-325 | two names without `@` or `$` that have the same key are equal |
| Strings.PathKeyCollision | llvm/lib/Transforms/Scalar/EnableProfiling.cpp:324-325 | names that contain `@` can collide: `a/b` and `a@b` get the same key |
| Strings.ModuleKey | llvm/lib/Transforms/Scalar/EnableProfiling.cpp:324-325 | the two `replace` calls on the module name produce `PathKey` of it |
| Strings.FieldLength | llvm/lib/Transforms/Scalar/EnableProfiling.cpp:66 | one `getline` takes the longest delimiter-free prefix, stopping at the delimiter or at the end |
| Strings.Fields | llvm/lib/Transforms/Scalar/EnableProfiling.cpp:62-69 | the fields of an empty string are none, and of a non-empty one at least one; no field contains the delimiter |
| Strings.JoinFields | llvm/lib/Transforms/Scalar/EnableProfiling.cpp:62-75 | joining the fields with the delimiter gives the input back, minus one trailing delimiter; inner empty fields are kept |
| Strings.FieldAt | llvm/lib/Transforms/Scalar/EnableProfiling.cpp:66-67 | a delimiter-free stretch ending at a delimiter or at the end is the next field, and the rest is split from just after it |
| Strings.GetLine | llvm/lib/Transforms/Scalar/EnableProfiling.cpp:66-67 | one `getline` call returns the next field and moves past its delimiter |
| Strings.Split | llvm/lib/Transforms/Scalar/EnableProfiling.cpp:62-75 | the `getline` loop returns exactly `Fields(s, delim)` |
| Strings.Stoi | llvm/lib/Transforms/Scalar/EnableProfiling.cpp:280-282 | a converted index token fits an `int` |
| Strings.DecimalString | llvm/lib/Transforms/Scalar/EnableMarking.cpp:95 | `std::to_string` of a non-negative value is a non-empty string of decimal digits with no leading zero |
| Strings.DecimalRoundTrip | llvm/lib/Transforms/Scalar/EnableMarking.cpp:95 | reading the digits of `to_string(n)` back gives `n` |
| Strings.StoiOfDecimal | llvm/lib/Transforms/Scalar/EnableProfiling.cpp:278-282 | `stoi` undoes `to_string` on every non-negative `int`, with or without a leading `+` |
| Strings.StripPlus | llvm/lib/Transforms/Scalar/EnableProfiling.cpp:278-283 | stripping the leading `+` before `stoi` gives the same value as converting the whole token |
| IndexMaps.StoredSnoc | llvm/lib/Transforms/Scalar/EnableMarking.cpp:148-152 | storing one more pair after the others is one more map update |
| IndexMaps.StoredKeys | llvm/lib/Transforms/Scalar/EnableProfiling.cpp:274-290 | after the stores, a key is present exactly when it was present before or some store names it |
| IndexMaps.StoredUntouched | llvm/lib/Transforms/Scalar/EnableProfiling.cpp:274-290 | a key that no store names keeps its old value |
| IndexMaps.StoredGrows | llvm/lib/Transforms/Scalar/EnableProfiling.cpp:274-290 | storing never removes a key, and every stored key is present afterwards |
| IndexMaps.StoredSize | llvm/lib/Transforms/Scalar/EnableMarking.cpp:148-152 | each store adds at most one key |
| IndexMaps.StoredLastWins | llvm/lib/Transforms/Scalar/EnableProfiling.cpp:287-289 | a later store to a key overwrites an earlier one, so the key holds the value of its last store |
| EnableProfiling.IsSkippedModule | llvm/lib/Transforms/Scalar/EnableProfiling.cpp:300-307 | a module is skipped exactly when its name starts with `../../base`, `../../testing`, `../../buildtools` or `../../chrome/test`; every skipped name starts with `../../` |
| EnableProfiling.SkipsSiblingDirectory | llvm/lib/Transforms/Scalar/EnableProfiling.cpp:306-307 | the test is on characters, not directories: `../../baseline/x.cc` is skipped too |
| EnableProfiling.KeepsChromeBrowser | llvm/lib/Transforms/Scalar/EnableProfiling.cpp:306-307 | `../../chrome/browser/z.cc` is not skipped |
| EnableProfiling.LineIndex | llvm/lib/Transforms/Scalar/EnableProfiling.cpp:277-283 | the index after stripping `+` equals `stoi` of the first token |
| EnableProfiling.LineName | llvm/lib/Transforms/Scalar/EnableProfiling.cpp:285-289 | the name is the second token or that token without its last character, and a token with no `\n` is taken as it stands |
| EnableProfiling.LineNameOfFileLine | llvm/lib/Transforms/Scalar/EnableProfiling.cpp:285-289 | on lines that `getline` extracted, removing the trailing `\n` never applies, so the name is the second token as it stands |
| EnableProfiling.Entries | llvm/lib/Transforms/Scalar/EnableProfiling.cpp:274-290 | line k of the file stores its name and its index, in file order |
| EnableProfiling.Loaded | llvm/lib/Transforms/Scalar/EnableProfiling.cpp:265-292 | a file that cannot be opened leaves the map as it was; reading never removes a function; a file with at least one line leaves the map non-empty |
| EnableProfiling.ReadOneLine | llvm/lib/Transforms/Scalar/EnableProfiling.cpp:274-290 | reading the next line is the map update `TaintedFuncs[name] = idx` followed by reading the rest |
| EnableProfiling.LinesKeys | llvm/lib/Transforms/Scalar/EnableProfiling.cpp:285-289 | after reading, a function is listed exactly when it was listed before or some line names it |
| EnableProfiling.LinesLastWins | llvm/lib/Transforms/Scalar/EnableProfiling.cpp:285-289 | a function named on several lines gets the index of the last one |
| EnableProfiling.LinesUntouched | llvm/lib/Transforms/Scalar/EnableProfiling.cpp:265-292 | a function that no line names keeps its old index |
| EnableProfiling.ParseIndexLine | llvm/lib/Transforms/Scalar/EnableProfiling.cpp:276-289 | split the line, convert the index with `+` stripped, and take the name with any trailing `\n` removed |
| EnableProfiling.InstrumentFunction | llvm/lib/Transforms/Scalar/EnableProfiling.cpp:256-263 | a probe is inserted exactly when the function is not a declaration, an intrinsic or empty, and it carries the given index |
| EnableProfiling.Statics.constructor | llvm/lib/Transforms/Scalar/EnableProfiling.cpp:246 | `TaintedFuncs` is defined once, empty |
| EnableProfiling.EnableProfilingPass.constructor | llvm/lib/Transforms/Scalar/EnableProfiling.cpp:38-41 | a new pass object uses the process's one `TaintedFuncs` and does not touch it |
| EnableProfiling.EnableProfilingPass.ReadIndexes | llvm/lib/Transforms/Scalar/EnableProfiling.cpp:265-292 | a file that cannot be opened leaves the map as it was; otherwise every line is stored into the map in file order |
| EnableProfiling.EnableProfilingPass.RunOnModule | llvm/lib/Transforms/Scalar/EnableProfiling.cpp:294-334 | the file is read whenever the map is empty and only then, so its content is required to be well formed only then. A module under one of the four prefixes is left alone and the pass returns false. Otherwise exactly the listed, instrumentable functions get a probe with their mapped index, the bitcode goes to `/home/chenxiong/` + key, and the pass returns true |
| EnableProfiling.SharedAcrossPasses | llvm/lib/Transforms/Scalar/EnableProfiling.cpp:294-299 | two pass objects in one process share `TaintedFuncs`: the second reads its file only if the first left the map empty, and otherwise keeps what the first read |
| RecordCov.WordIndex | llvm/lib/Transforms/Scalar/EnableProfiling.cpp:231 | `udiv id, 32`; `IndexSplit` states what it means |
| RecordCov.IndexSplit | llvm/lib/Transforms/Scalar/EnableProfiling.cpp:231-232 | the index is `32 * word + bit`, so word `id / 32` covers indices `32 * word` to `32 * word + 31` |
| RecordCov.Mask | llvm/lib/Transforms/Scalar/EnableProfiling.cpp:233 | `shl 1, bit`; `MaskSingleBit` and `MaskOverlap` state what it means |
| RecordCov.MaskSingleBit | llvm/lib/Transforms/Scalar/EnableProfiling.cpp:233 | a mask has exactly one bit set |
| RecordCov.BitIndex | llvm/lib/Transforms/Scalar/EnableProfiling.cpp:232 | `urem id, 32` is below 32 |
| RecordCov.SetBit | llvm/lib/Transforms/Scalar/EnableProfiling.cpp:231-239 | the load/or/store keeps the bitmap's size and every word except `id / 32` |
| RecordCov.MaskOverlap | llvm/lib/Transforms/Scalar/EnableProfiling.cpp:233 | two `1 << bit` masks share a bit exactly when their bit indices agree |
| RecordCov.SlotDeterminesIndex | llvm/lib/Transforms/Scalar/EnableProfiling.cpp:231-232 | word and bit together determine the index |
| RecordCov.SetBitExactly | llvm/lib/Transforms/Scalar/EnableProfiling.cpp:230-239 | after the record, the bit of `other` is set exactly when `other == id` or it was set before |
| RecordCov.SetBitIdempotent | llvm/lib/Transforms/Scalar/EnableProfiling.cpp:237-239 | recording the same index twice is the same as recording it once |
| RecordCov.Execute | llvm/lib/Transforms/Scalar/EnableProfiling.cpp:187-239 | an entry keeps the bitmap's size |
| RecordCov.ExecuteOnce | llvm/lib/Transforms/Scalar/EnableProfiling.cpp:187-191 | a second entry into a recorded function changes nothing |
| RecordCov.RunFlags | llvm/lib/Transforms/Scalar/EnableProfiling.cpp:187-214 | after any run, the recorded flags are the old ones plus the functions entered. The segment is attached at most once: only when the pointer was null and some unrecorded function was entered |
| RecordCov.RunBitmap | llvm/lib/Transforms/Scalar/EnableProfiling.cpp:187-239 | after any run, a bit is set exactly when it was set before or it belongs to the first entry into an unrecorded function |
| RecordCov.CoverageRuntime.constructor | llvm/lib/Transforms/Scalar/EnableProfiling.cpp:173-185 | every flag starts at 0 and `cov_sh_mem` starts null |
| RecordCov.CoverageRuntime.RecordCov | llvm/lib/Transforms/Scalar/EnableProfiling.cpp:187-239 | the check_record / check_shm / get_shm / record blocks update the runtime state as `Execute` does |
| EnableMarking.PairCount | llvm/lib/Transforms/Scalar/EnableMarking.cpp:147 | `(tokens.size() - 1) / 2` complete pairs fit after the file name |
| EnableMarking.PairEntries | llvm/lib/Transforms/Scalar/EnableMarking.cpp:148-152 | one entry per complete pair, in line order (`PairEntryAt` gives each one) |
| EnableMarking.PairEntryAt | llvm/lib/Transforms/Scalar/EnableMarking.cpp:149-151 | pair i is token `2i+2` with `stoi` of token `2i+1` |
| EnableMarking.PairsMap | llvm/lib/Transforms/Scalar/EnableMarking.cpp:145-152 | a line's map has at most one function per complete pair |
| EnableMarking.PairsMapKeys | llvm/lib/Transforms/Scalar/EnableMarking.cpp:148-152 | a function is in a line's map exactly when some pair of that line names it |
| EnableMarking.PairsMapLastWins | llvm/lib/Transforms/Scalar/EnableMarking.cpp:151 | a function named by several pairs of a line gets the index of the last pair |
| EnableMarking.TrailingTokenIgnored | llvm/lib/Transforms/Scalar/EnableMarking.cpp:147 | an index token with no name after it is ignored |
| EnableMarking.FileEntries | llvm/lib/Transforms/Scalar/EnableMarking.cpp:142-152 | line k stores its first token with the map of its pairs, in file order |
| EnableMarking.Loaded | llvm/lib/Transforms/Scalar/EnableMarking.cpp:131-155 | a file that cannot be opened leaves the map as it was; reading never removes a source file; a file with at least one line leaves the map non-empty |
| EnableMarking.ReadOneLine | llvm/lib/Transforms/Scalar/EnableMarking.cpp:140-153 | reading the next line replaces its file's map, then reads the rest |
| EnableMarking.LinesKeys | llvm/lib/Transforms/Scalar/EnableMarking.cpp:143-145 | after reading, a file has a map exactly when it had one before or some line starts with it |
| EnableMarking.LinesLastWins | llvm/lib/Transforms/Scalar/EnableMarking.cpp:145 | a later line for a file replaces that file's map wholesale: the file ends up with its last line's map, and pairs from earlier lines are gone |
| EnableMarking.LinesUntouched | llvm/lib/Transforms/Scalar/EnableMarking.cpp:140-153 | a file that no line names keeps its map |
| EnableMarking.Statics.constructor | llvm/lib/Transforms/Scalar/EnableMarking.cpp:116 | `FunctionIndexes` is defined once, empty |
| EnableMarking.EnableMarkingPass.constructor | llvm/lib/Transforms/Scalar/EnableMarking.cpp:38-41 | a new pass object uses the process's one `FunctionIndexes` and does not touch it |
| EnableMarking.EnableMarkingPass.ReadLine | llvm/lib/Transforms/Scalar/EnableMarking.cpp:142-152 | one line sets its file's map to the map of its pairs, whatever the map held before |
| EnableMarking.EnableMarkingPass.StorePairs | llvm/lib/Transforms/Scalar/EnableMarking.cpp:145-152 | the reset and the inner `for` loop leave the file's map equal to its pairs stored in order into an empty map |
| EnableMarking.EnableMarkingPass.ReadIndexes | llvm/lib/Transforms/Scalar/EnableMarking.cpp:131-155 | a file that cannot be opened changes nothing; otherwise every line is stored in file order |
| EnableMarking.EnableMarkingPass.RunOnModule | llvm/lib/Transforms/Scalar/EnableMarking.cpp:157-200 | the file is read only while the map is empty, so its content is required to be well formed only then. A module with no entry is reported, and an empty entry is inserted for it. A function is skipped if it is a declaration, an intrinsic or empty; it is reported as unindexed if its module's map lacks it (it never gets a default index); otherwise it is marked with its index. The pass always returns true |
| EnableMarking.SharedAcrossPasses | llvm/lib/Transforms/Scalar/EnableMarking.cpp:157-168 | two pass objects in one process share `FunctionIndexes`: the second never reads its file, its map holds exactly the first file's source files plus both modules, and it does not report a module the first run already inserted |
| EnableMarking.EnterStep | llvm/lib/Transforms/Scalar/EnableMarking.cpp:100-109 | one entry leaves the flag non-zero and runs the mark block exactly when the flag was 0; a set flag is kept as it is |
| EnableMarking.MarkTrace | llvm/lib/Transforms/Scalar/EnableMarking.cpp:97-109 | for `n` entries it records `n` answers, one per entry |
| EnableMarking.MarkedStaysMarked | llvm/lib/Transforms/Scalar/EnableMarking.cpp:100-104 | once the flag is non-zero, the mark block never runs again |
| EnableMarking.MarkOnce | llvm/lib/Transforms/Scalar/EnableMarking.cpp:97-109 | from the initial 0, the mark block runs on the first entry and on no later one |
| EnableMarking.MarkGuard.constructor | llvm/lib/Transforms/Scalar/EnableMarking.cpp:97-98 | `is_marked_<id>` starts at 0 |
| EnableMarking.MarkGuard.Enter | llvm/lib/Transforms/Scalar/EnableMarking.cpp:100-109 | the check_mark / mark_cov blocks run the mark block exactly when the flag is 0, and leave the flag at 1 |
| HunDun.SnapshotPath | llvm/lib/Transforms/Scalar/HunDun.cpp:65-70 | the save path starts with `out_dir`, ends in `.bc`, and is four characters longer than `out_dir` and the module name together |
| HunDun.SnapshotPathShape | llvm/lib/Transforms/Scalar/HunDun.cpp:65-70 | the save path is `out_dir + "/"` followed by a file name that is as long as the module name plus `.bc`. The file name holds no `/`, so the file sits directly in `out_dir`, and it holds no `.` before `.bc` |
| HunDun.SnapshotPathDistinct | llvm/lib/Transforms/Scalar/HunDun.cpp:66-70 | distinct modules whose names have no `@` or `$` are saved to distinct files |
| HunDun.Hits | llvm/lib/Transforms/Scalar/HunDun.cpp:122-129 | the probes keep the area's size; `HitsBytes` gives each byte |
| HunDun.HitsBytes | llvm/lib/Transforms/Scalar/HunDun.cpp:122-129 | after any sequence of probes, a byte is 1 if some probe hit it and otherwise unchanged; order and repetition do not matter |
| HunDun.HitsRepeat | llvm/lib/Transforms/Scalar/HunDun.cpp:128 | the probes store the constant 1, so running them again changes nothing |
| HunDun.AflArea.Hit | llvm/lib/Transforms/Scalar/HunDun.cpp:122-129 | a probe sets byte `cur_loc` of the area to 1 and changes nothing else |
| HunDun.AflArea.HitAll | llvm/lib/Transforms/Scalar/HunDun.cpp:107-130 | running the probes one after another gives `Hits` |
| HunDun.HunDunPass.constructor | llvm/lib/Transforms/Scalar/HunDun.cpp:45-50 | `shm_size` and `out_dir` are the constructor's arguments, and as `const` fields they never change |
| HunDun.HunDunPass.SaveIR | llvm/lib/Transforms/Scalar/HunDun.cpp:65-70 | the module is written to `out_dir + "/" + key + ".bc"` |
| HunDun.HunDunPass.RunOnModule | llvm/lib/Transforms/Scalar/HunDun.cpp:87-133 | with `shm_size == 0` the module is only saved: no probes, and the pass returns false. Otherwise nothing is saved, and every function with a body gets exactly one probe, at slot `random() % shm_size`, which is always below `shm_size`. Skipped functions get none, and the pass returns true |

## Left out

- LLVM IR construction is not modelled: basic blocks, `IRBuilder`, GEP, PHI, `nosanitize` metadata and `getOrCreateGlobalString`. A function is an abstract record, and the inserted code is modelled by what it does at run time.
- Writing bitcode (`raw_fd_ostream`, `WriteBitcodeToFile`) is not modelled; only the path is computed.
- Opening and reading files through `ifstream` is not modelled. The file's content is a parameter, and `None` stands for a file that cannot be opened.
- `shmget`, `shmat` and `shmdt` are one abstract "attach" step, which is counted. Their key, size and flag constants are not modelled, except the segment size, 458168 bytes.
- Races between threads on the bitmap, the flags and the lazy attach are not modelled.
- `random()` is not modelled: its value for each function is a parameter. HunDun.HunDunPass.RunOnModule takes one value per function position. Only instrumentable functions use theirs, whereas the source calls `random()` only for those functions.
- Strings.Stoi: covers only an optional `+` followed by decimal digits whose value fits an `int`, and the index readers require every index token to have that form. `std::stoi` also skips leading whitespace and accepts one `-`. It ignores anything after the digits, so `12abc` gives 12. It throws only when no digit follows the sign or the value is out of `int` range. None of that is modelled. `read_indexes` in EnableProfiling strips one `+` before calling it, so `++5` and `+-5` are accepted there.
- EnableProfiling.EnableProfilingPass.ReadIndexes: requires every line to have at least two space-separated tokens and a non-empty second token. The source indexes `tokens[0][0]`, `tokens[1]` and `tokens[1][l-1]` without checking them, so any other line is undefined behaviour. RunOnModule demands this only while `TaintedFuncs` is empty, the only time it reads the file.
- EnableMarking.EnableMarkingPass.ReadIndexes: requires every line to be non-empty, because the source reads `tokens[0]` unchecked. RunOnModule demands this only while `FunctionIndexes` is empty, the only time it reads the file.
- EnableMarking.EnableMarkingPass.StorePairs: builds the file's inner map in a local variable and stores it into `FunctionIndexes` once, after the loop. The source writes through `FunctionIndexes[file_name]` on every pair. Nothing reads the map in between, so the final state is the same.
- RecordCov: the `is_<name>_recorded` flags are keyed by function name across the whole program. In the source each flag is a private global of its module.
- RecordCov.CoverageRuntime.RecordCov: requires the word `id / 32` to lie inside the segment. The emitted code does not check this bound.
- HunDun.AflArea.constructor: stands for the AFL runtime, which allocates and zeroes the area. The pass only declares `__afl_area_ptr` as an external global (HunDun.cpp:101-103), so this constructor has no counterpart in the source.
- The HunDun pass's default constructor, which leaves `shm_size` and `out_dir` uninitialised, is not modelled.
- EnableMarking's save of the module, which is commented out in the source, is not modelled.
- The pass registration macros, `getAnalysisUsage` and the unused `APInt` fields are not modelled.
- clang/include/clang/Basic/CodeGenOptions.h (a plain options bag) and llvm/include/llvm/Transforms/Scalar/HunDun.h (a factory declaration) are not part of this model.
- The `errs()` diagnostics are not printed. The pass outcomes record them instead: `skip` as `changed == false`, "Cannot find indexes for" as `missing`, and "Cannot find index for" as `Unindexed`.
