/** The tracer: what it does with each stop of the traced process. */
module FileTracing {
  import opened Options
  import opened Paths
  import opened TraceeMemory

  datatype Signal = SIGCHLD | SIGWINCH | OtherSignal(number: nat)

  datatype Regs = Regs(origRax: nat, rdi: nat, rsi: nat, rax: nat)

  /** What `wait` reports. A syscall stop shows the registers and the memory, but not
      whether the call is being entered or left. */
  datatype WaitStatus =
    | Exited(code: int)
    | Signaled(signal: Signal)
    | Stopped(signal: Signal)
    | PtraceSyscall(regs: Regs, memory: Memory)

  datatype FileAccess = OpenFile(path: Path, outFd: nat) | FileRead(fd: nat) | ListDir(fd: nat)

  // ---------- Which paths are tracked ----------

  const NIX: Path := [47, 110, 105, 120]
  const PROC: Path := [47, 112, 114, 111, 99]
  const CACHE: Path := [46, 99, 97, 99, 104, 101]

  function HomeCacheDir(home: Option<Path>): Option<Path> {
    match home
    case None => None
    case Some(h) => Some(Join(h, CACHE))
  }

  /** With no home directory everything counts as the git cache. */
  predicate ShouldTrack(homeCacheDir: Option<Path>, path: Path) {
    var isNix := StartsWith(path, NIX);
    var isGitCache := if homeCacheDir.Some? then StartsWith(path, homeCacheDir.value) else true;
    var isInProc := StartsWith(path, PROC);
    !isNix && !isInProc && !isGitCache
  }

  /** Tracking looks at a path only through its components. */
  lemma TrackingIgnoresSpelling(homeCacheDir: Option<Path>, p: Path, q: Path)
    requires SamePath(p, q)
    ensures ShouldTrack(homeCacheDir, p) == ShouldTrack(homeCacheDir, q)
  {
  }

  /** Whole subtrees are left out: below a directory that is not tracked nothing is. */
  lemma UntrackedBelow(homeCacheDir: Option<Path>, dir: Path, name: Name)
    requires !ShouldTrack(homeCacheDir, dir)
    ensures !ShouldTrack(homeCacheDir, Join(dir, name))
  {
    ComponentsOfAnyJoin(dir, name);
  }

  lemma RootEntryComponents(name: Name)
    requires name != [DOT] && name != [DOT, DOT]
    ensures Components([SLASH] + name) == [RootDir, Normal(name)]
  {
    ComponentsOfRoots();
    ComponentsOfJoin([SLASH], name);
  }

  lemma RootEntryStartsWith(name: Name, other: Name)
    requires name != [DOT] && name != [DOT, DOT] && other != [DOT] && other != [DOT, DOT]
    ensures StartsWith([SLASH] + name, [SLASH] + other) <==> name == other
  {
    RootEntryComponents(name);
    RootEntryComponents(other);
    assert Components([SLASH] + name)[1] == Normal(name);
  }

  /** Tracking is by components, not by text: an entry of the root is left out exactly when
      it is `nix` or `proc`, whatever other names begin like these (the cache directory
      lies deeper, and with no home nothing is tracked at all). */
  lemma RootEntryTrackedIff(homeCacheDir: Option<Path>, name: Name)
    requires name != [DOT] && name != [DOT, DOT]
    requires homeCacheDir.Some? && |Components(homeCacheDir.value)| > 2
    ensures ShouldTrack(homeCacheDir, [SLASH] + name) <==> [SLASH] + name != NIX && [SLASH] + name != PROC
  {
    var nix: Name, proc: Name := [110, 105, 120], [112, 114, 111, 99];
    assert NIX == [SLASH] + nix && PROC == [SLASH] + proc;
    RootEntryStartsWith(name, nix);
    RootEntryStartsWith(name, proc);
    RootEntryComponents(name);
    assert ([SLASH] + name)[1..] == name;
  }

  lemma PrefixOfEntry(base: seq<Component>, dir: seq<Component>, x: Component, y: Component)
    ensures |base| <= |dir| ==> (base <= dir + [x] <==> base <= dir)
    ensures dir + [y] <= dir + [x] <==> x == y
  {
    if |base| <= |dir| {
      assert (dir + [x])[..|base|] == dir[..|base|];
    }
    assert (dir + [x])[|dir|] == x && (dir + [y])[|dir|] == y;
  }

  lemma SystemDirectories()
    ensures |Components(NIX)| == 2 && |Components(PROC)| == 2
  {
    var nix: Name, proc: Name := [110, 105, 120], [112, 114, 111, 99];
    assert NIX == [SLASH] + nix && PROC == [SLASH] + proc;
    RootEntryComponents(nix);
    RootEntryComponents(proc);
  }

  /** In a home directory that is itself tracked, the cache directory is the one entry left
      out. */
  lemma HomeEntryTrackedIff(home: Path, name: Name)
    requires home != [] && name != [DOT] && name != [DOT, DOT]
    requires ShouldTrack(HomeCacheDir(Some(home)), home) && |Components(home)| > 1
    ensures ShouldTrack(HomeCacheDir(Some(home)), Join(home, name)) <==> name != CACHE
  {
    var cache: Name := [46, 99, 97, 99, 104, 101];
    SystemDirectories();
    ComponentsOfJoin(home, name);
    ComponentsOfJoin(home, cache);
    PrefixOfEntry(Components(NIX), Components(home), Normal(name), Normal(cache));
    PrefixOfEntry(Components(PROC), Components(home), Normal(name), Normal(cache));
  }

  /** The three directories left out, as components: /nix, /proc, and .cache in the home. */
  ghost predicate IsLeftOut(home: Path, cs: seq<Component>) {
    || cs == [RootDir, Normal([110, 105, 120])]
    || cs == [RootDir, Normal([112, 114, 111, 99])]
    || cs == Components(home) + [Normal([46, 99, 97, 99, 104, 101])]
  }

  lemma LeftOutComponents(home: Path)
    ensures Components(NIX) == [RootDir, Normal([110, 105, 120])]
    ensures Components(PROC) == [RootDir, Normal([112, 114, 111, 99])]
    ensures Components(HomeCacheDir(Some(home)).value) == Components(home) + [Normal([46, 99, 97, 99, 104, 101])]
  {
    var nix: Name, proc: Name, cache: Name := [110, 105, 120], [112, 114, 111, 99], [46, 99, 97, 99, 104, 101];
    assert NIX == [SLASH] + nix && PROC == [SLASH] + proc;
    RootEntryComponents(nix);
    RootEntryComponents(proc);
    ComponentsOfAnyJoin(home, cache);
  }

  lemma PrefixOfExtension(base: seq<Component>, dir: seq<Component>, more: seq<Component>)
    requires |more| <= 1
    ensures base <= dir + more <==> base <= dir || base == dir + more
  {
    if |base| <= |dir| {
      assert (dir + more)[..|base|] == dir[..|base|];
    } else if base <= dir + more {
      assert base == (dir + more)[..|base|];
    }
  }

  /** What is tracked, step by step from the empty path or the root: an entry is exactly
      when its directory is and it is not itself one of the three directories left out. By
      induction over names this decides every path, whatever the home directory is. */
  lemma EntryTrackedIff(home: Path, dir: Path, name: Name)
    ensures ShouldTrack(HomeCacheDir(Some(home)), Join(dir, name)) <==>
            ShouldTrack(HomeCacheDir(Some(home)), dir) && !IsLeftOut(home, Components(Join(dir, name)))
  {
    var cs, more := Components(dir), Added(dir, name);
    LeftOutComponents(home);
    ComponentsOfAnyJoin(dir, name);
    PrefixOfExtension([RootDir, Normal([110, 105, 120])], cs, more);
    PrefixOfExtension([RootDir, Normal([112, 114, 111, 99])], cs, more);
    PrefixOfExtension(Components(home) + [Normal([46, 99, 97, 99, 104, 101])], cs, more);
  }

  /** Where it starts from. */
  lemma RootsTracked(home: Path)
    ensures ShouldTrack(HomeCacheDir(Some(home)), []) && ShouldTrack(HomeCacheDir(Some(home)), [SLASH])
  {
    LeftOutComponents(home);
    ComponentsOfRoots();
    if Components(home) == [] {
      assert Components(home) + [Normal([46, 99, 97, 99, 104, 101])] == [Normal([46, 99, 97, 99, 104, 101])];
    }
  }

  function JoinAll(dir: Path, names: seq<Name>): Path {
    if names == [] then dir else Join(JoinAll(dir, names[..|names| - 1]), names[|names| - 1])
  }

  /** No directory on the way, the last one included, is one of the three. */
  ghost predicate AvoidsLeftOut(home: Path, dir: Path, names: seq<Name>) {
    names == [] || (AvoidsLeftOut(home, dir, names[..|names| - 1]) && !IsLeftOut(home, Components(JoinAll(dir, names))))
  }

  /** So a path however deep is tracked exactly when the way to it avoids the three. */
  lemma {:induction false} DeepPathTrackedIff(home: Path, dir: Path, names: seq<Name>)
    requires ShouldTrack(HomeCacheDir(Some(home)), dir)
    ensures ShouldTrack(HomeCacheDir(Some(home)), JoinAll(dir, names)) <==> AvoidsLeftOut(home, dir, names)
  {
    if names != [] {
      var front := names[..|names| - 1];
      DeepPathTrackedIff(home, dir, front);
      TrackedStep(home, JoinAll(dir, front), names[|names| - 1], JoinAll(dir, names));
    }
  }

  lemma TrackedStep(home: Path, dir: Path, name: Name, entry: Path)
    requires entry == Join(dir, name)
    ensures ShouldTrack(HomeCacheDir(Some(home)), entry) <==>
            ShouldTrack(HomeCacheDir(Some(home)), dir) && !IsLeftOut(home, Components(entry))
  {
    EntryTrackedIff(home, dir, name);
  }

  /** With no home directory nothing is tracked. */
  lemma NoHomeNothingTracked(p: Path)
    ensures !ShouldTrack(HomeCacheDir(None), p)
  {
  }

  /** `HashSet<PathBuf>::insert`: the first spelling of a path stays. */
  function InsertPath(s: set<Path>, p: Path): set<Path> {
    if exists q :: q in s && SamePath(q, p) then s else s + {p}
  }

  // ---------- The tracer as a function of the stops ----------

  datatype TracerState = TracerState(readFiles: set<Path>, fileDescriptors: map<nat, Path>)

  datatype WatchResult = Files(files: set<Path>) | WatchError | Panicked

  datatype ParsedCall = Parsed(access: Option<FileAccess>, rest: seq<WaitStatus>) | ParseError

  /** `FileAccess::from_syscall` at a stop with these registers, `rest` being the stops to
      come. A read is reported at once; every other call is first followed to its next
      stop. A process that is gone can be neither resumed nor looked at. */
  function FromSyscall(regs: Regs, memory: Memory, rest: seq<WaitStatus>): (r: ParsedCall)
    ensures r.Parsed? ==> |r.rest| <= |rest|
  {
    match regs.origRax
    case 0 => Parsed(Some(FileRead(regs.rdi)), rest)
    case 2 => OpenAtExit(PathAt(memory, regs.rdi), rest)
    case 257 => OpenAtExit(PathAt(memory, regs.rsi), rest)
    case 78 => if rest == [] then ParseError else Parsed(Some(ListDir(regs.rdi)), rest[1..])
    case 217 => if rest == [] then ParseError else Parsed(Some(ListDir(regs.rdi)), rest[1..])
    case _ => if rest == [] then ParseError else Parsed(None, rest[1..])
  }

  function OpenAtExit(path: Path, rest: seq<WaitStatus>): (r: ParsedCall)
    ensures r.Parsed? ==> |r.rest| <= |rest|
  {
    if rest != [] && rest[0].PtraceSyscall? then Parsed(Some(OpenFile(path, rest[0].regs.rax)), rest[1..])
    else ParseError
  }

  /** `handle_access`; none when the descriptor is unknown and `expect` panics. */
  function Handle(homeCacheDir: Option<Path>, st: TracerState, access: FileAccess): Option<TracerState> {
    match access
    case OpenFile(path, fd) => Some(st.(fileDescriptors := st.fileDescriptors[fd := path]))
    case _ =>
      if access.fd !in st.fileDescriptors then None
      else
        var path := st.fileDescriptors[access.fd];
        if ShouldTrack(homeCacheDir, path) then Some(st.(readFiles := InsertPath(st.readFiles, path))) else Some(st)
  }

  /** The loop of `watch`, from a loop head with these stops to come. */
  function WatchLoop(homeCacheDir: Option<Path>, st: TracerState, stops: seq<WaitStatus>): WatchResult
    decreases |stops|
  {
    if stops == [] then WatchError
    else
      var rest := stops[1..];
      match stops[0]
      case Exited(_) => Files(st.readFiles)
      case Signaled(_) => WatchError
      case Stopped(signal) =>
        if signal.OtherSignal? then Panicked
        else if rest == [] then WatchError
        else WatchLoop(homeCacheDir, st, rest)
      case PtraceSyscall(regs, memory) =>
        match FromSyscall(regs, memory, rest)
        case ParseError => WatchError
        case Parsed(access, rest') =>
          var handled := if access.None? then Some(st) else Handle(homeCacheDir, st, access.value);
          match handled
          case None => Panicked
          case Some(st') => if rest' == [] then Files(st'.readFiles) else WatchLoop(homeCacheDir, st', rest')
  }

  const NEW_TRACER: TracerState := TracerState({}, map[])

  /** `watch`: the first stop is the `SIGSTOP` the child raises on itself. */
  function WatchChild(homeCacheDir: Option<Path>, stops: seq<WaitStatus>): WatchResult {
    if |stops| <= 1 then WatchError else WatchLoop(homeCacheDir, NEW_TRACER, stops[1..])
  }

  /** The ends the loop can meet, at whatever point: an exit with any code, which in a life
      that ends by `exit_group` the call's own stop swallows; a kill; a signal the tracer does
      not know; nothing more to come. */
  lemma LoopVerdicts(homeCacheDir: Option<Path>, st: TracerState, stop: WaitStatus, rest: seq<WaitStatus>)
    ensures stop.Exited? ==> WatchLoop(homeCacheDir, st, [stop] + rest) == Files(st.readFiles)
    ensures stop.Signaled? ==> WatchLoop(homeCacheDir, st, [stop] + rest) == WatchError
    ensures stop.Stopped? && stop.signal.OtherSignal? ==> WatchLoop(homeCacheDir, st, [stop] + rest) == Panicked
    ensures stop.Stopped? && !stop.signal.OtherSignal? ==>
              WatchLoop(homeCacheDir, st, [stop] + rest) == WatchLoop(homeCacheDir, st, rest)
    ensures WatchLoop(homeCacheDir, st, []) == WatchError
  {
    assert ([stop] + rest)[1..] == rest;
  }

  // ---------- The tracer as an object ----------

  /** The traced process as the tracer meets it: the stops it has yet to report. */
  class Tracee {
    var pending: seq<WaitStatus>

    constructor (stops: seq<WaitStatus>)
      ensures pending == stops
    {
      pending := stops;
    }

    /** `wait` and `waitpid` */
    method Wait() returns (r: Option<WaitStatus>)
      modifies this
      ensures if old(pending) == [] then r.None? && pending == []
              else r == Some(old(pending)[0]) && pending == old(pending)[1..]
    {
      if pending == [] {
        return None;
      }
      r := Some(pending[0]);
      pending := pending[1..];
    }

    /** `ptrace::syscall`, which fails on a process that is gone. */
    method Resume() returns (ok: bool)
      ensures ok == (pending != [])
    {
      return pending != [];
    }

    /** `wait_till_syscall_exit`: the status it gets is not looked at. */
    method WaitTillSyscallExit() returns (exit: Option<WaitStatus>)
      modifies this
      ensures if old(pending) == [] then exit.None? && pending == []
              else exit == Some(old(pending)[0]) && pending == old(pending)[1..]
    {
      var ok := Resume();
      if !ok {
        return None;
      }
      exit := Wait();
    }
  }

  method FromSyscallStop(tracee: Tracee, regs: Regs, memory: Memory) returns (r: Option<Option<FileAccess>>)
    modifies tracee
    ensures match FromSyscall(regs, memory, old(tracee.pending))
            case ParseError => r.None?
            case Parsed(access, rest) => r == Some(access) && tracee.pending == rest
  {
    match regs.origRax {
      case 0 =>
        return Some(Some(FileRead(regs.rdi)));
      case 2 =>
        var path := ReadPathFromRegister(memory, regs.rdi);
        var exit := tracee.WaitTillSyscallExit();
        if exit.None? || !exit.value.PtraceSyscall? {
          return None;
        }
        return Some(Some(OpenFile(path, exit.value.regs.rax)));
      case 257 =>
        var path := ReadPathFromRegister(memory, regs.rsi);
        var exit := tracee.WaitTillSyscallExit();
        if exit.None? || !exit.value.PtraceSyscall? {
          return None;
        }
        return Some(Some(OpenFile(path, exit.value.regs.rax)));
      case 78 =>
        var exit := tracee.WaitTillSyscallExit();
        return if exit.None? then None else Some(Some(ListDir(regs.rdi)));
      case 217 =>
        var exit := tracee.WaitTillSyscallExit();
        return if exit.None? then None else Some(Some(ListDir(regs.rdi)));
      case _ =>
        var exit := tracee.WaitTillSyscallExit();
        return if exit.None? then None else Some(None);
    }
  }

  class FileTracer {
    var readFiles: set<Path>
    var fileDescriptors: map<nat, Path>
    const homeCacheDir: Option<Path>

    function State(): TracerState
      reads this
    {
      TracerState(readFiles, fileDescriptors)
    }

    constructor (home: Option<Path>)
      ensures State() == NEW_TRACER && homeCacheDir == HomeCacheDir(home)
    {
      readFiles, fileDescriptors := {}, map[];
      homeCacheDir := HomeCacheDir(home);
    }

    /** Reports false where the source panics. */
    method HandleAccess(access: FileAccess) returns (ok: bool)
      modifies this
      ensures access.OpenFile? ==>
                ok && readFiles == old(readFiles) && fileDescriptors == old(fileDescriptors)[access.outFd := access.path]
      ensures !access.OpenFile? ==> (ok <==> access.fd in old(fileDescriptors)) && fileDescriptors == old(fileDescriptors)
      ensures !access.OpenFile? && ok && ShouldTrack(homeCacheDir, old(fileDescriptors)[access.fd]) ==>
                readFiles == InsertPath(old(readFiles), old(fileDescriptors)[access.fd])
      ensures !access.OpenFile? && (!ok || !ShouldTrack(homeCacheDir, old(fileDescriptors)[access.fd])) ==>
                readFiles == old(readFiles)
    {
      match access {
        case OpenFile(path, fd) =>
          fileDescriptors := fileDescriptors[fd := path];
        case _ =>
          if access.fd !in fileDescriptors {
            return false;
          }
          var path := fileDescriptors[access.fd];
          if ShouldTrack(homeCacheDir, path) {
            readFiles := InsertPath(readFiles, path);
          }
      }
      return true;
    }

    method Watch(tracee: Tracee) returns (r: WatchResult)
      requires State() == NEW_TRACER
      modifies this, tracee
      ensures r == WatchChild(homeCacheDir, old(tracee.pending))
    {
      var attached := tracee.Wait();
      var started := tracee.Resume();
      if attached.None? || !started {
        return WatchError;
      }
      ghost var answer := WatchLoop(homeCacheDir, NEW_TRACER, tracee.pending);
      while true
        invariant WatchLoop(homeCacheDir, State(), tracee.pending) == answer
        decreases |tracee.pending|
      {
        var status := tracee.Wait();
        if status.None? {
          return WatchError;
        }
        match status.value {
          case Exited(_) =>
            break;
          case Stopped(signal) =>
            if signal.OtherSignal? {
              return Panicked;
            }
            var resumed := tracee.Resume();
            if !resumed {
              return WatchError;
            }
          case Signaled(_) =>
            return WatchError;
          case PtraceSyscall(regs, memory) =>
            var access := FromSyscallStop(tracee, regs, memory);
            if access.None? {
              return WatchError;
            }
            if access.value.Some? {
              var ok := HandleAccess(access.value.value);
              if !ok {
                return Panicked;
              }
            }
            var resumed := tracee.Resume();
            if !resumed {
              break;
            }
        }
      }
      return Files(readFiles);
    }
  }
}
