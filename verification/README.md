# Verified model of the evaluation cache and the `.drv` parser of nix-for-rust

Two components of `nix-for-rust` are modelled, and what they promise is proved for all inputs and
all runs.

**The evaluation cache** (`nix-for-rust/src/eval_cache`). `eval_attr_from_file` answers from a
table of earlier evaluations. On a miss it forks a child, traces the child's system calls to learn
which files the evaluation read, hashes those files and stores a row; later calls re-hash the
recorded files and return the stored text when the hash matches.

| file | what it holds |
|---|---|
| `Paths.dfy` | paths as bytes, components, `PathBuf` equality and order, the stable sort |
| `InputHash.dfy`, `PartialInputs.dfy` | file systems, `hash_files`, what a digest determines, digests of incomplete lists |
| `AccessorKey.dfy` | the dot-joined accessor part of a key |
| `CacheDb.dfy` | the two tables, the `Db` object, lookup and insertion |
| `TraceeMemory.dfy` | reading a path out of the tracee word by word |
| `FileTracing.dfy` | the tracer: the `FileTracer` object, and the tracer as a function of the stops |
| `TracedProcess.dfy` | lives of traced processes, the kernel's descriptor table, what the tracer learns |
| `PipeProtocol.dfy` | parent, child and pipe as a state machine |
| `Evaluation.dfy` | adaptive evaluations, trace sufficiency, how much a digest can vouch for |
| `Utf8Text.dfy` | output text and `trim` |
| `EvalCache.dfy` | `eval_attr_from_file` itself |
| `CacheRuns.dfy`, `WellBehavedChildren.dfy` | whole runs, the table invariant, the main theorems |
| `StaleHits.dfy` | runs in which a hit is wrong, and exactly when there are any |

**The `.drv` parser** (`nix-for-rust/src/derivation.rs`).

| file | what it holds |
|---|---|
| `Nom.dfy` | the behaviour of nom 7 the parser relies on, grammars, exactness of separated lists |
| `QuotedString.dfy` | the string parser with its escape decoder, and the printer for strings |
| `Derivation.dfy` | the data types, the output classifier and the parsers |
| `DerivationGrammar.dfy` | the ATerm derivation grammar (Nix Reference Manual, "Derivation ATerm file format"), and that the parsers read exactly it |
| `DerivationPrinter.dfy` | the canonical printer, round trips and rejections |

`Options.dfy` is shared. `dafny verify dfyconfig.toml` checks everything.

## How the cache is modelled

- An evaluation is a strategy: given all observations so far it names the next file to read or
  directory to list, or is done. Later paths may depend on earlier contents without limit. A finite
  log of observations witnesses that an evaluation ends; evaluations that do not end have no log.
- Spellings of one path (`a//b`, `a/./b`, `a/b/`) lead to one node, since `HashSet<PathBuf>` takes
  them for one key. A directory listing is its entries' names and kinds in one order, seen by
  evaluation and hashing alike; the hash takes the names only, as `hash_files` does.
- The digest is an injective function of the bytes fed to the hasher, and those bytes are built as
  `hash_files` builds them. Digests and their hexadecimal text are identified.
- A traced process is its sequence of system calls and signal deliveries and the way it ends,
  including being killed while running, inside a call, or while stopped. The tracer sees registers
  and memory at each stop, not the phase of the call. Descriptors come from `open` and `openat`, or
  are inherited and never named to the tracer; `close` frees them unseen and numbers are reused.
- A run of the cache is any interleaving of arbitrary file-system writes with calls, a call being
  possibly cut off between any two of its inserts. Each call may come from an evaluator of its
  own, with other settings and another lookup path, as all of a process share one table. A call is
  atomic towards writes, and the child it forks has no children of its own.

## What turned out not to hold

Where the code does less than one would expect, the code is kept and the exact condition is proved.

- A digest does not see bytes move across a file boundary (`InputHash.BoundaryShiftUnseen`), an
  entry of a listed directory turn from one kind into another (`InputHash.EntryKindUnseen`), or a
  file that spells an entry path give way to the directory with that entry
  (`InputHash.FileForDirectoryUnseen`). Nor is a failed open recorded, so a file that appears later
  goes unnoticed (`Evaluation.MissingFileUntraced`). Together: when the recorded inputs of a row
  match, cached answers are right for every evaluator with its footprint exactly when every input
  is still there with its kind, the kinds of its entries and the length of what it feeds, and every
  missing or untracked path it looked at is as it was (`Evaluation.DigestVouchesIff`). For a row of
  a run that hits, `CacheRuns.UndisturbedIff` says the same.
- Hits that are wrong do happen: given a write that leaves the digest of the recorded files as it
  was, there is a run whose hit after it returns a stale text exactly when the write changed
  anything at a path the evaluation looked at (`StaleHits.StaleHitIff`).
- The key has nothing of the evaluator. Two evaluators of one process with different settings share
  rows, and a call is answered from the other's row, rightly exactly when both come to the same
  text (`StaleHits.SharedKeySharesAnswer`).
- Sorting the list of inputs forgets its order exactly when no path is spelled two ways
  (`Paths.SortIsOrderFree`); traced sets are always such (`TracedProcess.WatchIsDistinct`).
- Joined accessor paths are reversible exactly for dot-free names other than the lone empty name
  (`AccessorKey.JoinIsReversible`); dotted names collide (`AccessorKey.DottedNameCollides`), and a
  run exists where one is given the other's text (`StaleHits.DottedNameAnswered`).
- A crash between the inserts leaves a row that cannot hit while its recorded inputs keep their
  lengths, if it lacks an input that is not empty (`CacheRuns.CutRowCannotHit`). But as long as the
  files stay as they are, it keeps every call that traces the same set from storing anything. Such a call fails on
  the uniqueness constraint exactly when the row lacks an input that is not empty and no other row
  hits (`CacheRuns.CutRowWedgesKey`). Right after the crash that means: it returns the stored text if
  all the row lacks is empty, and fails otherwise (`CacheRuns.NextCallAfterCut`).
- The tracer does not see `close`, so a read on a closed number collects the path last opened under
  it although nothing is read (`TracedProcess.StaleReadCollected`). For every life the collected set
  is exactly the tracked paths by the latest open of each number read (`TracedProcess.WatchOfAnyLife`).
- The child blocks for ever when answer and newline do not fit the pipe
  (`PipeProtocol.CompletesIffFits`), since the parent reads only after the child is gone.
- The status that says the child was killed is not looked at in `wait_till_syscall_exit`; when that
  hides the kill is `TracedProcess.KillNoticedIff`. Half-written answers are still never stored, because the
  parent holds the writing end open itself and waits for a newline that does not come
  (`PipeProtocol.MissedKillHangs`, `PipeProtocol.FinishedIsComplete`).
- Only the first line of an answer comes through (`PipeProtocol.LineIsMessageIff`).
- A path whose last bytes lie within eight bytes of unreadable memory is cut to whole words
  (`TraceeMemory.PathReadInFull`).
- Besides a fixed output's path, a hash written without an algorithm is lost by the output
  classifier (`DerivationPrinter.HashWithoutAlgorithmIgnored`).
- Dynamic derivations as Nix writes them are always rejected: the comma behind the version string is
  not consumed (`DerivationPrinter.DynamicDerivationsRejected`). Without that comma and without
  inputs they are accepted, which Nix never writes (`DerivationPrinter.CommalessDynamicAccepted`);
  with a first input that has a name and a comma they reach a `todo!()`. `DerivationGrammar.DerivationExact` and
  `DerivationGrammar.PanicsIff` say for every text which of the three happens.

## Model

| member | source | states |
|---|---|---|
| CacheRuns.CacheTransparency | nix-for-rust/src/eval_cache/mod.rs:58-83 | in every run from empty tables, with any writes, any calls of any evaluators and any interrupted insertions before, a hit returns exactly the trimmed line that a fresh evaluation on the current files comes to, and no other outcome exists, if the rows that hit are undisturbed and were stored by the same program for the same accessor |
| CacheRuns.SameKeySameStrategy | nix-for-rust/src/eval_cache/db.rs:71-76 | rows of one key stored by one evaluator for dot-free names come from the same program on the same file and accessor |
| CacheRuns.UndisturbedIff | nix-for-rust/src/eval_cache/db.rs:89-94 | for a row whose recorded inputs match, being undisturbed is exactly that every path its evaluation looked at and every file traced for it is as it was, absent and untracked ones included |
| StaleHits.StaleHitIff | nix-for-rust/src/eval_cache/mod.rs:58-83 | after a write that keeps the digest of what is recorded, some run has a hit that is not the fresh text exactly when the write changed anything at a path looked at |
| StaleHits.SharedKeySharesAnswer | nix-for-rust/src/eval_cache/db.rs:71-96 | a call of another evaluator or accessor with the key of a stored row is answered from it, rightly exactly when both evaluations come to the same text |
| StaleHits.DottedNameAnswered | nix-for-rust/src/eval_cache/db.rs:76 | for any two names a run of one evaluator exists in which the attribute with the dot in its name is answered with the text of the two-name path, not its own |
| CacheRuns.HitMeansSameMainFile | nix-for-rust/src/eval_cache/mod.rs:23-29 | with no hypotheses on the writes, a row that hits was stored for the same canonical path and the same main-file content as now |
| CacheRuns.RunsAreSane | nix-for-rust/src/eval_cache/db.rs:99-123 | invariant over every run: each row has the key, digest, recorded inputs and trimmed line of an evaluation on some earlier file system, and its inputs leave out no tracked file that evaluation found |
| CacheRuns.RowOrderIndependence | nix-for-rust/src/eval_cache/db.rs:71-96 | in every reachable table whose hitting rows are undisturbed and of the same program, the early-returning scan gives the same answer for every order of the rows |
| CacheRuns.HitAfterMiss | nix-for-rust/src/eval_cache/mod.rs:58-80 | after a completed miss, the next call for the same names on unchanged files hits and returns the first answer trimmed, by whichever argument it is led to the main file and whatever other rows share the key |
| CacheRuns.StoredText | nix-for-rust/src/eval_cache/mod.rs:69-80 | of an answer of one line, in characters, all but the White_Space characters at its ends is stored; of a failed evaluation nothing is left to store |
| CacheRuns.CutRowCannotHit | nix-for-rust/src/eval_cache/db.rs:103-120 | in every run, no row whose inputs are only partly recorded can hit while the recorded ones keep their lengths, if a missing one was not empty when it was stored |
| CacheRuns.CutRowHitsIff | nix-for-rust/src/eval_cache/db.rs:79-95 | in every run, with its files as they were, a cut row hits exactly when all it lacks is empty |
| CacheRuns.CutRowWedgesKey | nix-for-rust/src/eval_cache/db.rs:102-113 | in every run with a cut row in the tables and its files as they were, a call that traces the same set, however its registers, memory, row order and walk differ, changes nothing; it fails exactly when the row lacks an input that is not empty and no other row hits, and otherwise returns what a row holds |
| CacheRuns.NextCallAfterCut | nix-for-rust/src/eval_cache/db.rs:102-113 | right after the crash the next call that traces the same set returns the stored text if all the row lacks is empty and fails otherwise |
| CacheRuns.HittingRowIsFresh | nix-for-rust/src/eval_cache/db.rs:89-94 | a matching digest on an undisturbed file system means the stored evaluation would go the same way now, also for a row cut short |
| WellBehavedChildren.MissReturnsIff | nix-for-rust/src/eval_cache/mod.rs:69-80 | with a child that exits by itself, a miss returns the line of the evaluation exactly when that line is not blank and no row of the tables has this key and this digest; otherwise it is an error |
| WellBehavedChildren.WellBehavedChildExists | nix-for-rust/src/eval_cache/mod.rs:34-56 | every terminating evaluation whose answer fits the pipe is carried out by some child under the tracer, so the theorems about misses are not empty |
| EvalCache.EvalAttrFromFile | nix-for-rust/src/eval_cache/mod.rs:58-83 | the call against the database and the tracer objects ends in exactly the tables and result of the specification `Attempt` |
| EvalCache.KeyMeaning | nix-for-rust/src/eval_cache/mod.rs:22-30 | a key is had exactly for a readable file; two calls share one exactly when their arguments canonicalize to one place with one content and their names join alike |
| EvalCache.UnreadableMainFile | nix-for-rust/src/eval_cache/mod.rs:25 | a call on a main file that cannot be read is an error and leaves the tables alone |
| EvalCache.CallOutcome | nix-for-rust/src/eval_cache/mod.rs:58-83 | every way a call on a readable file ends, in terms of rows, child and files: a row's text exactly when one hits; else a panic exactly when the tracer panics, an error exactly when tracing fails, the line is blank, a traced file is unreadable or a row has this key and digest; else the line; and when the tables stay as they are |
| EvalCache.AfterMissAdds | nix-for-rust/src/eval_cache/mod.rs:69-80 | after a lookup in vain the tables change only when tracing succeeded and the line is not blank, and then by one row for the trimmed line |
| CacheDb.Db.QueryEvaluationOutput | nix-for-rust/src/eval_cache/db.rs:66-97 | answers nothing exactly when no row of the key hashes now to its stored digest (rows that cannot be hashed never do), else the output of the first that does |
| CacheDb.Db.InsertEvaluationOutput | nix-for-rust/src/eval_cache/db.rs:99-123 | adds the row and all its inputs, or changes nothing on an unreadable input or a violated uniqueness constraint, the latter exactly when a row has this key and this digest |
| CacheDb.InsertionOutcome | nix-for-rust/src/eval_cache/migrations/20241209_init.sql:1-10 | an insertion fails on reading exactly when a listed file is missing, and on uniqueness exactly when a row agrees in the whole key and in the digest |
| CacheDb.OtherKeyGoesIn | nix-for-rust/src/eval_cache/db.rs:103-120 | after a store under one key, the same files are stored under any other key the tables do not have |
| CacheDb.LookupMeaning | nix-for-rust/src/eval_cache/db.rs:66-97 | a lookup in table order answers nothing exactly when no row of the key matches the current files |
| CacheDb.ScanMeaning | nix-for-rust/src/eval_cache/db.rs:79-96 | a lookup fails exactly when no visited row hits, and otherwise answers with a row that hits |
| CacheDb.FirstHitAnswers | nix-for-rust/src/eval_cache/db.rs:79-96 | of several rows that hit the first one visited is the answer |
| CacheDb.WithRowInputs | nix-for-rust/src/eval_cache/db.rs:80-88 | a new row owns exactly the inputs recorded for it and old rows keep theirs |
| CacheDb.AddedRowAnswers | nix-for-rust/src/eval_cache/db.rs:66-123 | an insertion, complete or lacking only what does not show in the digest, answers the next lookup on the same files in every row order |
| CacheDb.CutRowBlocks | nix-for-rust/src/eval_cache/migrations/20241209_init.sql:9 | a cut row that cannot hit makes the same digest conflict with the uniqueness constraint |
| InputHash.HashFiles | nix-for-rust/src/eval_cache/db.rs:50-64 | the sorting, feeding loop computes the digest of the concatenated contributions, or fails when a file is missing |
| InputHash.HashIsOrderFree | nix-for-rust/src/eval_cache/db.rs:52-54 | the digest of a list without two spellings of one path is the same for every permutation |
| InputHash.EntryStreamInjective | nix-for-rust/src/eval_cache/db.rs:55-58 | the undelimited streams of two listings of one directory are equal exactly when the names are, in order |
| InputHash.EqualDigestMeaning | nix-for-rust/src/eval_cache/db.rs:54-62 | when a digest is unchanged, the inputs are unchanged exactly when each kept its kind, the kinds of its entries and its contribution length |
| InputHash.SingleInputDigest | nix-for-rust/src/eval_cache/db.rs:54-62 | for a single input keeping the kind and the kinds of its entries is enough |
| InputHash.BoundaryShiftUnseen | nix-for-rust/src/eval_cache/db.rs:54-62 | bytes moved from the end of one file to the start of the next change the files and not the digest |
| InputHash.EntryKindUnseen | nix-for-rust/src/eval_cache/db.rs:56-58 | an entry of a listed directory that turns into another kind changes the directory and not the digest |
| InputHash.FileForDirectoryUnseen | nix-for-rust/src/eval_cache/db.rs:54-62 | a file holding the text of an entry path and the directory with that entry have the same digest |
| InputHash.HashDefined | nix-for-rust/src/eval_cache/db.rs:55-62 | hashing fails exactly when some file of the list is missing |
| PartialInputs.PartialListMisses | nix-for-rust/src/eval_cache/db.rs:79-95 | a list lacking a non-empty input cannot have the digest of the full list while lengths are kept |
| PartialInputs.PartialHitIsFullHit | nix-for-rust/src/eval_cache/db.rs:79-95 | if lengths are kept and a cut list matches, the full list matches too |
| Paths.PathOrder | nix-for-rust/src/eval_cache/db.rs:53 | the order `sort` uses is total and transitive and its ties are the equal paths |
| Paths.SortIsOrderFree | nix-for-rust/src/eval_cache/db.rs:53 | sorting forgets the order of its input exactly when no path is spelled two ways |
| Paths.EntryOrder | nix-for-rust/src/eval_cache/db.rs:53 | a directory goes before its entries, `..` before names, and entries of one directory go by the first byte that differs, a prefix first |
| Paths.AbsoluteFirst | nix-for-rust/src/eval_cache/db.rs:53 | absolute paths go before relative ones |
| Paths.ComponentsOfJoin | nix-for-rust/src/eval_cache/db.rs:57 | an entry's path has its directory's components and its own name after them |
| Paths.ComponentsOfAnyJoin | nix-for-rust/src/eval_cache/db.rs:57 | joining `..` adds a component of its own, joining `.` nothing unless it stands alone, joining any other name that name |
| Paths.SeparatorIgnored | nix-for-rust/src/eval_cache/trace.rs:91-95 | a trailing separator makes no difference to a path |
| AccessorKey.JoinIsReversible | nix-for-rust/src/eval_cache/db.rs:76 | joining with dots loses nothing exactly for dot-free lists other than the lone empty name |
| AccessorKey.JoinIsInjective | nix-for-rust/src/eval_cache/db.rs:108 | equal stored keys mean equal accessor paths for such lists |
| AccessorKey.KeysAreJoins | nix-for-rust/src/eval_cache/db.rs:76 | every stored key is the key of the names it reads as |
| AccessorKey.DottedNameCollides | nix-for-rust/src/eval_cache/db.rs:76 | a name with a dot shares its key with the path it looks like |
| Evaluation.TraceSufficiency | nix-for-rust/src/eval_cache/trace.rs:77-98 | any file system agreeing on the paths one evaluation looked at gives the same log and output |
| Evaluation.EvaluationIsDeterministic | nix-for-rust/src/eval_cache/mod.rs:34-45 | on one file system an evaluation has one log and one output |
| Evaluation.FootprintIsExact | nix-for-rust/src/eval_cache/trace.rs:77-98 | all evaluations that look at a given set of paths go the same way on two file systems exactly when those agree at each of the paths, missing ones included |
| Evaluation.DigestVouchesIff | nix-for-rust/src/eval_cache/db.rs:89-94 | when the recorded inputs, all or only some of those hashed, match the stored digest, stored answers are right for every evaluator that looked at the inputs and at other paths, absent or untracked, exactly when each input is there with its kind, entry kinds and contribution length and the others are as they were |
| Evaluation.MissingFileUntraced | nix-for-rust/src/eval_cache/trace.rs:34-45 | for any absent path an evaluator looks at nothing that exists and answers differently once the path exists; `StaleHits.StaleHitIff` makes a run of it and `DigestVouchesIff` gives the exact condition |
| Utf8Text.TrimMeaning | nix-for-rust/src/eval_cache/mod.rs:74 | trimming takes white space off both ends and nothing else; `TrimOfPoints` says which characters that is |
| Utf8Text.TrimOfPoints | nix-for-rust/src/eval_cache/mod.rs:74 | in code points: from every text whatever, trimming leaves what lies between the leading and the trailing characters of Unicode's White_Space property, the table written out |
| Utf8Text.PrintableStays | nix-for-rust/src/eval_cache/mod.rs:74-79 | a text with printable ASCII other than the blank at both ends, as a store path, is its own trim, also with a newline behind it |
| Utf8Text.TrimLeavesNone | nix-for-rust/src/eval_cache/mod.rs:74 | no white space is left at either end |
| Utf8Text.TrimIsIdempotent | nix-for-rust/src/eval_cache/mod.rs:74-79 | the trimmed text of a hit and the untrimmed line of the miss it repeats have the same trimmed form |
| TraceeMemory.ReadPathFromRegister | nix-for-rust/src/eval_cache/trace.rs:139-163 | for every memory and address the word loop returns the bytes before the first NUL when the word holding the end is readable, else the whole words before it |
| TraceeMemory.PathReadInFull | nix-for-rust/src/eval_cache/trace.rs:139-163 | a terminated path is read in full exactly when its last word is readable or holds the NUL alone |
| TraceeMemory.PeekedBytes | nix-for-rust/src/eval_cache/trace.rs:146-151 | a word read as a signed number and taken apart in little-endian order gives the bytes in memory order |
| FileTracing.FileTracer.HandleAccess | nix-for-rust/src/eval_cache/trace.rs:86-98 | opens record the descriptor's path, reads and listings insert the path if tracked, unknown descriptors panic and change nothing |
| FileTracing.FileTracer.Watch | nix-for-rust/src/eval_cache/trace.rs:100-135 | the event loop over the tracee answers as the specification `WatchChild` does on its stops |
| FileTracing.LoopVerdicts | nix-for-rust/src/eval_cache/trace.rs:104-133 | at whatever point, an exit with any code ends the watch with the set, a kill with an error, an unknown signal with a panic, and the two known signals change nothing |
| FileTracing.FromSyscallStop | nix-for-rust/src/eval_cache/trace.rs:25-57 | which access a syscall stop stands for, and how many stops are consumed, for every call number |
| FileTracing.UntrackedBelow | nix-for-rust/src/eval_cache/trace.rs:77-84 | nothing below an untracked directory is tracked |
| FileTracing.EntryTrackedIff | nix-for-rust/src/eval_cache/trace.rs:66-84 | for every home directory, directory and name: an entry is tracked exactly when its directory is and its components are not those of /nix, /proc or .cache in the home, names written out in bytes |
| FileTracing.DeepPathTrackedIff | nix-for-rust/src/eval_cache/trace.rs:77-84 | a path any number of names below a tracked directory is tracked exactly when none of the directories on the way, itself included, is one of the three |
| FileTracing.RootsTracked | nix-for-rust/src/eval_cache/trace.rs:77-84 | the root and the empty path are tracked in every home, so `EntryTrackedIff` decides every path |
| FileTracing.RootEntryTrackedIff | nix-for-rust/src/eval_cache/trace.rs:77-84 | an entry of the root is left out exactly when it is nix or proc, by component and not by text |
| FileTracing.HomeEntryTrackedIff | nix-for-rust/src/eval_cache/trace.rs:66-84 | in a tracked home directory the cache directory is the one entry left out |
| FileTracing.NoHomeNothingTracked | nix-for-rust/src/eval_cache/trace.rs:81 | with no home directory nothing is tracked |
| FileTracing.TrackingIgnoresSpelling | nix-for-rust/src/eval_cache/trace.rs:77-84 | two spellings of one path are both tracked or both not |
| TracedProcess.PhaseAlignment | nix-for-rust/src/eval_cache/trace.rs:104-133 | in every life of every process each stop at the loop head is a call's entry, a read's exit, a signal or the end |
| TracedProcess.WatchIsReplay | nix-for-rust/src/eval_cache/trace.rs:19-56 | over a whole life the tracer does what handling each event exactly once would do |
| TracedProcess.TracerSimulatesKernel | nix-for-rust/src/eval_cache/trace.rs:86-98 | at every point of every legal life the tracer's map has the right path of each live opened descriptor and none for inherited ones, closes unseen and numbers reused |
| TracedProcess.TracerIsExact | nix-for-rust/src/eval_cache/trace.rs:86-98 | for a process that reads only descriptors it opened, the collected set is exactly the tracked paths read or listed and nothing panics |
| TracedProcess.TracerCollectsAskedFor | nix-for-rust/src/eval_cache/trace.rs:86-98 | for every sequence of events, closed and failed numbers included, the tracer panics exactly when a read has no open of its number before it or a signal is unknown, and otherwise has collected exactly the tracked paths by the latest open of each number |
| TracedProcess.InsertTrackedMeaning | nix-for-rust/src/eval_cache/trace.rs:91-96 | collecting covers every tracked path, adds nothing else and never holds two spellings of one path |
| TracedProcess.WatchOfGoodLife | nix-for-rust/src/eval_cache/trace.rs:100-135 | a good life that exits yields exactly the collected set, one killed while running an error |
| TracedProcess.WatchOfAnyLife | nix-for-rust/src/eval_cache/trace.rs:100-135 | the verdict on every process that exits by itself, however it uses its descriptors: that exact set or a panic |
| TracedProcess.StaleReadCollected | nix-for-rust/src/eval_cache/trace.rs:86-98 | a legal life that reads nothing, a read on a closed number aside, has its path collected |
| TracedProcess.WatchIsComplete | nix-for-rust/src/eval_cache/trace.rs:100-135 | however a process behaves and ends, if watching answers with a set it covers every tracked path read through a live descriptor and no inherited descriptor was read |
| TracedProcess.WatchIsDistinct | nix-for-rust/src/eval_cache/trace.rs:91-96 | the answer never holds two spellings of one path |
| TracedProcess.KillNoticedIff | nix-for-rust/src/eval_cache/trace.rs:19-23 | exactly which kills during a call are reported as success |
| PipeProtocol.CompletesIffFits | nix-for-rust/src/eval_cache/mod.rs:63-79 | every undisturbed run that can go no further has finished with the first line exactly when answer and newline fit the pipe, and is a deadlock on the full pipe otherwise |
| PipeProtocol.RunsAreBounded | nix-for-rust/src/eval_cache/mod.rs:63-79 | no run, killed or not, is longer than the measure of its start |
| PipeProtocol.FinishedIsComplete | nix-for-rust/src/eval_cache/mod.rs:69-80 | a parent that gets a line has the first line of the complete answer, after all calls of the evaluation were made, even if the child was killed |
| PipeProtocol.StuckStates | nix-for-rust/src/eval_cache/mod.rs:63-79 | the only ends of runs are finished, failed, a blocked write, and waiting for a newline from a dead child |
| PipeProtocol.MissedKillHangs | nix-for-rust/src/eval_cache/mod.rs:63-73 | a dead child that wrote no newline leaves the parent waiting for ever |
| PipeProtocol.LineIsMessageIff | nix-for-rust/src/eval_cache/mod.rs:46-50 | the whole answer comes through exactly when it has no newline of its own |
| Nom.ListSound | nix-for-rust/src/derivation.rs:190-192 | an accepted list is bracketed texts of its elements with single commas between and nothing else |
| Nom.ListComplete | nix-for-rust/src/derivation.rs:190-192 | every such text, followed by anything, is accepted with the elements in order |
| Nom.PrefixCode | nix-for-rust/src/derivation.rs:148-200 | no text in a grammar so parsed is a proper prefix of another, and no text stands for two values |
| QuotedString.EscapedTransformLoop | nix-for-rust/src/derivation.rs:163-169 | nom's index loop with its early returns computes the recursive decoder on every input |
| QuotedString.StringExact | nix-for-rust/src/derivation.rs:161-172 | the string parser accepts exactly the quoted spellings and decodes each to the text it spells |
| QuotedString.StringRoundTrip | nix-for-rust/src/derivation.rs:161-172 | a printed string is read back before any following text |
| QuotedString.PrintedStringsArePrefixFree | nix-for-rust/src/derivation.rs:161-172 | no printed string is a proper prefix of another |
| QuotedString.BadEscapeRejected | nix-for-rust/src/derivation.rs:163-170 | any escape other than backslash, quote, n, r and t, or an unfinished one, fails the whole string although `opt` swallows the decoder's error |
| Derivation.ToMapLastWins | nix-for-rust/src/derivation.rs:235-241 | of several entries with one key the last one is kept |
| Derivation.ToMapKeys | nix-for-rust/src/derivation.rs:235-241 | a collected map has the keys of its entries and no other |
| Derivation.ToMapOfEnumeration | nix-for-rust/src/derivation.rs:235-241 | collecting the entries of a map in any order gives the map |
| DerivationGrammar.PairExact | nix-for-rust/src/derivation.rs:194-201 | pairs are read off their grammar, both ways |
| DerivationGrammar.StringSetExact | nix-for-rust/src/derivation.rs:148-150 | a set of strings is read off a list text exactly when it has the strings listed, no more and no fewer |
| DerivationGrammar.OutputExact | nix-for-rust/src/derivation.rs:174-188 | outputs are read off their grammar, both ways, a failed classification being a failed parse |
| DerivationGrammar.InputExact | nix-for-rust/src/derivation.rs:152-159 | traditional inputs are read off their grammar, both ways, with exactly the listed outputs |
| DerivationGrammar.DerivationExact | nix-for-rust/src/derivation.rs:203-244 | on every input, whatever its header, a derivation is accepted with a given rest and result exactly when the consumed text is in the grammar of its version and the result collects its fields |
| DerivationGrammar.PanicsIff | nix-for-rust/src/derivation.rs:152-159 | parsing panics exactly on a dynamic header, readable outputs, a comma and a first input with a name and a comma |
| DerivationPrinter.DerivationRoundTrip | nix-for-rust/src/derivation.rs:216-244 | every well-formed traditional derivation, printed with its entries in any order and followed by any text, is read back |
| DerivationPrinter.ListingRoundTrip | nix-for-rust/src/derivation.rs:216-244 | the same for lists with repeated keys, the last entry winning |
| DerivationPrinter.Reparse | nix-for-rust/src/derivation.rs:216-244 | parse, print, parse is parse: whatever text a traditional derivation was read from, it is read back from its printed text in any order of entries |
| DerivationPrinter.PrintingIsPrefixFree | nix-for-rust/src/derivation.rs:216-244 | no derivation's text continues another's |
| DerivationPrinter.ListingExists | nix-for-rust/src/derivation.rs:106-116 | every well-formed derivation can be laid out for printing |
| DerivationPrinter.OutputClassification | nix-for-rust/src/derivation.rs:118-146 | a triple is classified as an output exactly when the output is well-formed and the triple is how it is written, a hash without algorithm aside |
| DerivationPrinter.MethodOfPrinted | nix-for-rust/src/derivation.rs:26-57 | every method prefix and algorithm name is told apart again |
| DerivationPrinter.HashWithoutAlgorithmIgnored | nix-for-rust/src/derivation.rs:139-142 | a hash given without an algorithm is dropped |
| DerivationPrinter.BadElementRejected | nix-for-rust/src/derivation.rs:190-192 | a list with an unreadable element or a trailing comma is rejected whole after any number of good elements, none included |
| DerivationPrinter.DynamicDerivationsRejected | nix-for-rust/src/derivation.rs:203-218 | behind a version string in any spelling a comma is an error, so no dynamic derivation as Nix writes it is accepted |
| DerivationPrinter.CommalessDynamicAccepted | nix-for-rust/src/derivation.rs:203-244 | a dynamic header without that comma, any well-formed fields and no inputs are accepted before any text |

## Left out

- The Nix evaluator and C API: evaluation is any strategy over file observations; the accessor fold and the string check of `evaluate_traced` are inside it.
- Observations by stat, pread or mmap, descriptors from dup, pipe or socket, paths relative to a directory descriptor: the tracer does not see them and the theorems do not cover them.
- What keeps untracked paths unchanged, as the source's own comments claim they are: a theorem that says undisturbed has it as a condition.
- `canonicalize`: a fixed function of the path; symbolic links do not change during a run.
- File permissions and I/O errors other than absence.
- SQLite, tokio, pooling, pragmas and migrations beyond the two tables, the uniqueness rule and the foreign key; several processes sharing the database.
- blake3: taken as injective, see above.
- Writes to traced files during one call: a call is one step towards writes.
- System calls of the child after its answer is written (the error message on standard error) and UTF-8 validity of the answer.
- CacheRuns.CacheTransparency: holds when the rows that hit are undisturbed and were stored by the same program for the same accessor, because without that it is false of the code (`StaleHits`); the exact conditions are `CacheRuns.UndisturbedIff` with `Evaluation.DigestVouchesIff`, `StaleHits.SharedKeySharesAnswer` and, for one evaluator, `AccessorKey.JoinIsReversible`.
- StaleHits.StaleHitIff: for paths that each have one spelling and fit in a process's memory, as a traced set keeps only the first spelling.
- Inode numbers and offsets that a directory listing also returns: taken as not looked at.
- `parse_path` of the store: an arbitrary predicate on texts.
- The inputs of dynamic derivations: a `todo!()` of the source, whose panic is a `Panic` result here.
- `NixStore::parse_derivation` (file reading, error text), `Derivation::to_nix`.
- `nix-for-py`, flakes, settings, terms and the build.
