/** The traced process and its kernel, and what the tracer learns from them. */
module TracedProcess {
  import opened Options
  import opened Paths
  import opened TraceeMemory
  import opened FileTracing

  // ---------- Lives of processes ----------

  /** A system call: number, the two arguments that matter, memory at entry, result. */
  datatype Call = Call(nr: nat, rdi: nat, rsi: nat, memory: Memory, ret: nat)

  predicate IsRead(c: Call) { c.nr == 0 }

  predicate IsOpen(c: Call) { c.nr == 2 || c.nr == 257 }

  predicate IsList(c: Call) { c.nr == 78 || c.nr == 217 }

  const CLOSE: nat := 3
  const EXIT_GROUP: nat := 231

  /** Between calls a process may be handed signals; nothing else happens to it. */
  datatype Event = Syscall(call: Call) | Delivery(signal: Signal)

  /** The ways a process ends: by itself; or killed while it runs, inside a call, or while
      it is stopped at the entry or the exit of a call. */
  datatype Ending =
    | ExitGroup(code: int)
    | KilledRunning(signal: Signal)
    | KilledInside(call: Call, signal: Signal)
    | KilledAtEntry(call: Call)
    | KilledAtExit(call: Call)

  datatype Phase = AtEntry(call: Call) | AtExit(call: Call) | AtSignal | AtDeath

  /** A stop, and the phase of the call that the kernel knows but `wait` does not tell. */
  datatype Stop = Stop(status: WaitStatus, phase: Phase)

  /** A call in progress has no result yet. */
  const ENOSYS: nat := 0xFFFF_FFFF_FFFF_FFDA

  function EntryStop(c: Call): Stop {
    Stop(PtraceSyscall(Regs(c.nr, c.rdi, c.rsi, ENOSYS), c.memory), AtEntry(c))
  }

  /** A call leaves its number and arguments in their registers. */
  function ExitStop(c: Call): Stop {
    Stop(PtraceSyscall(Regs(c.nr, c.rdi, c.rsi, c.ret), c.memory), AtExit(c))
  }

  function EventStops(e: Event): seq<Stop> {
    match e
    case Syscall(c) => [EntryStop(c), ExitStop(c)]
    case Delivery(signal) => [Stop(Stopped(signal), AtSignal)]
  }

  function EndingStops(ending: Ending): (r: seq<Stop>)
    ensures r != []
  {
    match ending
    case ExitGroup(code) => [EntryStop(Call(EXIT_GROUP, 0, 0, map[], 0)), Stop(Exited(code), AtDeath)]
    case KilledRunning(signal) => [Stop(Signaled(signal), AtDeath)]
    case KilledInside(c, signal) => [EntryStop(c), Stop(Signaled(signal), AtDeath)]
    case KilledAtEntry(c) => [EntryStop(c)]
    case KilledAtExit(c) => [EntryStop(c), ExitStop(c)]
  }

  function Stops(events: seq<Event>, ending: Ending): (r: seq<Stop>)
    ensures r != []
    decreases |events|
  {
    if events == [] then EndingStops(ending) else EventStops(events[0]) + Stops(events[1..], ending)
  }

  /** What the tracer gets to see of some stops. */
  function Seen(stops: seq<Stop>): seq<WaitStatus> {
    seq(|stops|, i requires 0 <= i < |stops| => stops[i].status)
  }

  lemma SeenCons(s: Stop, rest: seq<Stop>)
    ensures Seen([s] + rest) == [s.status] + Seen(rest)
  {
  }

  // ---------- Phase alignment ----------

  /** How many stops are still to come each time the tracer is at its loop head. */
  function LoopHeads(stops: seq<WaitStatus>): seq<nat>
    decreases |stops|
  {
    if stops == [] then []
    else
      [|stops|] +
      match stops[0]
      case PtraceSyscall(regs, memory) =>
        (match FromSyscall(regs, memory, stops[1..])
         case ParseError => []
         case Parsed(_, rest) => LoopHeads(rest))
      case Stopped(_) => LoopHeads(stops[1..])
      case _ => []
  }

  /** The stop met when `n` stops are still to come. */
  function StopAt(stops: seq<Stop>, n: nat): Stop
    requires 0 < n <= |stops|
  {
    stops[|stops| - n]
  }

  predicate FitsLoopHead(p: Phase) {
    p.AtExit? ==> IsRead(p.call)
  }

  ghost predicate Aligned(stops: seq<Stop>, heads: seq<nat>) {
    forall i | 0 <= i < |heads| :: 0 < heads[i] <= |stops| && FitsLoopHead(StopAt(stops, heads[i]).phase)
  }

  lemma AlignedBehind(before: seq<Stop>, stops: seq<Stop>, heads: seq<nat>)
    requires Aligned(stops, heads)
    ensures Aligned(before + stops, heads)
  {
    forall i | 0 <= i < |heads|
      ensures 0 < heads[i] <= |before + stops| && FitsLoopHead(StopAt(before + stops, heads[i]).phase)
    {
      assert StopAt(before + stops, heads[i]) == StopAt(stops, heads[i]);
    }
  }

  lemma AlignedDelivery(signal: Signal, rest: seq<Stop>)
    requires Aligned(rest, LoopHeads(Seen(rest)))
    ensures var stops := [Stop(Stopped(signal), AtSignal)] + rest; Aligned(stops, LoopHeads(Seen(stops)))
  {
    var s := Stop(Stopped(signal), AtSignal);
    SeenCons(s, rest);
    assert Seen([s] + rest)[1..] == Seen(rest);
    AlignedBehind([s], rest, LoopHeads(Seen(rest)));
    AlignedCons([s] + rest, LoopHeads(Seen(rest)));
  }

  lemma AlignedCall(c: Call, rest: seq<Stop>)
    requires rest != [] && Aligned(rest, LoopHeads(Seen(rest)))
    ensures var stops := [EntryStop(c)] + ([ExitStop(c)] + rest); Aligned(stops, LoopHeads(Seen(stops)))
  {
    var entry, exit, heads := EntryStop(c), ExitStop(c), LoopHeads(Seen(rest));
    SeenCons(exit, rest);
    SeenCons(entry, [exit] + rest);
    assert Seen([exit] + rest)[1..] == Seen(rest);
    assert Seen([entry] + ([exit] + rest))[1..] == Seen([exit] + rest);
    AlignedBehind([exit], rest, heads);
    if IsRead(c) {
      assert LoopHeads(Seen([exit] + rest)) == [|rest| + 1] + heads;
      AlignedCons([exit] + rest, heads);
      AlignedBehind([entry], [exit] + rest, [|rest| + 1] + heads);
      AlignedCons([entry] + ([exit] + rest), [|rest| + 1] + heads);
    } else {
      AlignedBehind([entry], [exit] + rest, heads);
      AlignedCons([entry] + ([exit] + rest), heads);
    }
  }

  /** In every life of every process, whatever the tracer meets at its loop head is the
      entry of a call, the exit of a read, a signal or the end: it never takes the exit of
      one call for the entry of another. */
  lemma {:induction false} PhaseAlignment(events: seq<Event>, ending: Ending)
    ensures Aligned(Stops(events, ending), LoopHeads(Seen(Stops(events, ending))))
    decreases |events|
  {
    if events == [] {
      EndingAlignment(ending);
    } else {
      var rest := Stops(events[1..], ending);
      PhaseAlignment(events[1..], ending);
      match events[0]
      case Delivery(signal) => AlignedDelivery(signal, rest);
      case Syscall(c) =>
        AlignedCall(c, rest);
        assert [EntryStop(c), ExitStop(c)] + rest == [EntryStop(c)] + ([ExitStop(c)] + rest);
    }
  }

  lemma AlignedCons(stops: seq<Stop>, heads: seq<nat>)
    requires Aligned(stops, heads) && stops != [] && FitsLoopHead(stops[0].phase)
    ensures Aligned(stops, [|stops|] + heads)
  {
    var all := [|stops|] + heads;
    forall i | 0 <= i < |all| ensures 0 < all[i] <= |stops| && FitsLoopHead(StopAt(stops, all[i]).phase) {
      if i > 0 { assert all[i] == heads[i - 1]; }
    }
  }

  lemma EndingAlignment(ending: Ending)
    ensures Aligned(EndingStops(ending), LoopHeads(Seen(EndingStops(ending))))
  {
    var stops := EndingStops(ending);
    var seen := Seen(stops);
    if |stops| == 1 {
      assert seen[1..] == [] && LoopHeads(seen[1..]) == [];
      assert LoopHeads(seen) == [1] + [];
    } else {
      assert seen[1..] == [stops[1].status] && seen[1..][1..] == [];
      assert LoopHeads(seen[1..][1..]) == [];
    }
  }

  // ---------- What one call does to the tracer ----------

  function AddressOf(c: Call): nat {
    if c.nr == 2 then c.rdi else c.rsi
  }

  /** The effect of one event on the tracer, once. */
  function AfterEvent(homeCacheDir: Option<Path>, st: TracerState, e: Event): Option<TracerState> {
    match e
    case Delivery(signal) => if signal.OtherSignal? then None else Some(st)
    case Syscall(c) =>
      if IsOpen(c) then Handle(homeCacheDir, st, OpenFile(PathAt(c.memory, AddressOf(c)), c.ret))
      else if IsRead(c) then Handle(homeCacheDir, st, FileRead(c.rdi))
      else if IsList(c) then Handle(homeCacheDir, st, ListDir(c.rdi))
      else Some(st)
  }

  function EndingResult(homeCacheDir: Option<Path>, st: TracerState, ending: Ending): WatchResult {
    match ending
    case ExitGroup(_) => Files(st.readFiles)
    case KilledRunning(_) => WatchError
    case KilledInside(c, _) =>
      if IsOpen(c) then WatchError
      else
        (match AfterEvent(homeCacheDir, st, Syscall(c))
         case None => Panicked
         case Some(st') => if IsRead(c) then WatchError else Files(st'.readFiles))
    case KilledAtEntry(c) =>
      if IsRead(c) then
        (match AfterEvent(homeCacheDir, st, Syscall(c))
         case None => Panicked
         case Some(st') => Files(st'.readFiles))
      else WatchError
    case KilledAtExit(c) =>
      (match AfterEvent(homeCacheDir, st, Syscall(c))
       case None => Panicked
       case Some(st') => Files(st'.readFiles))
  }

  function Replay(homeCacheDir: Option<Path>, st: TracerState, events: seq<Event>, ending: Ending): WatchResult
    decreases |events|
  {
    if events == [] then EndingResult(homeCacheDir, st, ending)
    else
      match AfterEvent(homeCacheDir, st, events[0])
      case None => Panicked
      case Some(st') => Replay(homeCacheDir, st', events[1..], ending)
  }

  lemma HandleTwice(homeCacheDir: Option<Path>, st: TracerState, access: FileAccess)
    requires !access.OpenFile? && Handle(homeCacheDir, st, access).Some?
    ensures var st' := Handle(homeCacheDir, st, access).value;
            Handle(homeCacheDir, st', access) == Some(st')
  {
    var path := st.fileDescriptors[access.fd];
    var st' := Handle(homeCacheDir, st, access).value;
    if ShouldTrack(homeCacheDir, path) {
      assert exists q :: q in st'.readFiles && SamePath(q, path) by {
        if !(exists q :: q in st.readFiles && SamePath(q, path)) {
          assert path in st'.readFiles && SamePath(path, path);
        }
      }
    }
  }

  lemma EventStep(homeCacheDir: Option<Path>, st: TracerState, e: Event, rest: seq<Stop>)
    requires rest != []
    ensures WatchLoop(homeCacheDir, st, Seen(EventStops(e) + rest)) ==
            match AfterEvent(homeCacheDir, st, e)
            case None => Panicked
            case Some(st') => WatchLoop(homeCacheDir, st', Seen(rest))
  {
    match e
    case Delivery(signal) =>
      SeenCons(Stop(Stopped(signal), AtSignal), rest);
      assert Seen(EventStops(e) + rest)[1..] == Seen(rest);
    case Syscall(c) =>
      var entry, exit := EntryStop(c), ExitStop(c);
      assert [entry, exit] + rest == [entry] + ([exit] + rest);
      SeenCons(exit, rest);
      SeenCons(entry, [exit] + rest);
      assert Seen([exit] + rest)[1..] == Seen(rest);
      assert Seen([entry] + ([exit] + rest))[1..] == Seen([exit] + rest);
      if IsRead(c) && AfterEvent(homeCacheDir, st, e).Some? {
        HandleTwice(homeCacheDir, st, FileRead(c.rdi));
      }
  }

  lemma EndingStep(homeCacheDir: Option<Path>, st: TracerState, ending: Ending)
    ensures WatchLoop(homeCacheDir, st, Seen(EndingStops(ending))) == EndingResult(homeCacheDir, st, ending)
  {
    var stops := EndingStops(ending);
    var seen := Seen(stops);
    if |stops| == 1 {
      assert seen == [stops[0].status] && seen[1..] == [];
    } else {
      assert seen == [stops[0].status, stops[1].status];
      assert seen[1..] == [stops[1].status] && seen[1..][1..] == [];
      if ending.KilledAtExit? && IsRead(ending.call) && AfterEvent(homeCacheDir, st, Syscall(ending.call)).Some? {
        HandleTwice(homeCacheDir, st, FileRead(ending.call.rdi));
      }
    }
  }

  /** Over a whole life the tracer does what handling every event exactly once would do:
      reads are seen at entry and exit and count once, all other calls are taken in pairs. */
  lemma {:induction false} WatchIsReplay(homeCacheDir: Option<Path>, st: TracerState, events: seq<Event>, ending: Ending)
    ensures WatchLoop(homeCacheDir, st, Seen(Stops(events, ending))) == Replay(homeCacheDir, st, events, ending)
    decreases |events|
  {
    if events == [] {
      EndingStep(homeCacheDir, st, ending);
    } else {
      EventStep(homeCacheDir, st, events[0], Stops(events[1..], ending));
      if AfterEvent(homeCacheDir, st, events[0]).Some? {
        WatchIsReplay(homeCacheDir, AfterEvent(homeCacheDir, st, events[0]).value, events[1..], ending);
      }
    }
  }

  // ---------- The kernel's descriptor table ----------

  /** What a live descriptor stands for: a file opened by the process, or something it
      had before it was traced. */
  datatype Source = Opened(path: Path) | Inherited

  type Descriptors = d: map<nat, Source> | forall fd | fd in d :: fd < FIRST_ERROR witness map[]

  /** Results from here up are error codes, never descriptors. */
  const FIRST_ERROR: nat := 0xFFFF_FFFF_FFFF_F001

  /** The path the kernel itself takes from memory. */
  function KernelPath(c: Call): Path {
    CString(c.memory, AddressOf(c))
  }

  function KernelStep(d: Descriptors, c: Call): Descriptors {
    if IsOpen(c) && c.ret < FIRST_ERROR then d[c.ret := Opened(KernelPath(c))]
    else if c.nr == CLOSE then d - {c.rdi}
    else d
  }

  /** A successful open hands out a number that is not in use; the tracer can read the
      words its path lies in. */
  ghost predicate KernelAllows(d: Descriptors, c: Call) {
    IsOpen(c) ==>
      (c.ret < FIRST_ERROR ==> c.ret !in d) && PathAt(c.memory, AddressOf(c)) == KernelPath(c)
  }

  ghost predicate Legal(d: Descriptors, events: seq<Event>)
    decreases |events|
  {
    events == [] ||
    (match events[0]
     case Delivery(_) => Legal(d, events[1..])
     case Syscall(c) => KernelAllows(d, c) && Legal(KernelStep(d, c), events[1..]))
  }

  /** The file a call reads or lists, if it does. */
  function ReadBy(d: Descriptors, c: Call): seq<Path> {
    if (IsRead(c) || IsList(c)) && c.rdi in d && d[c.rdi].Opened? then [d[c.rdi].path] else []
  }

  /** The truth: every path read or listed through a live descriptor, in order. */
  function Reads(d: Descriptors, events: seq<Event>): seq<Path>
    decreases |events|
  {
    if events == [] then []
    else
      match events[0]
      case Delivery(_) => Reads(d, events[1..])
      case Syscall(c) => ReadBy(d, c) + Reads(KernelStep(d, c), events[1..])
  }

  function DescriptorsAfter(d: Descriptors, events: seq<Event>): Descriptors
    decreases |events|
  {
    if events == [] then d
    else
      match events[0]
      case Delivery(_) => DescriptorsAfter(d, events[1..])
      case Syscall(c) => DescriptorsAfter(KernelStep(d, c), events[1..])
  }

  /** The tracer's map is right about every live descriptor: it has the path of each opened
      one and nothing for the others. It may have more, for descriptors closed since. */
  ghost predicate Simulates(known: map<nat, Path>, d: Descriptors) {
    forall fd | fd in d ::
      match d[fd]
      case Opened(path) => fd in known && known[fd] == path
      case Inherited => fd !in known
  }

  ghost predicate OnlyInherited(d: Descriptors) {
    forall fd | fd in d :: d[fd].Inherited?
  }

  function TracerAfter(homeCacheDir: Option<Path>, st: TracerState, events: seq<Event>): Option<TracerState>
    decreases |events|
  {
    if events == [] then Some(st)
    else
      match AfterEvent(homeCacheDir, st, events[0])
      case None => None
      case Some(st') => TracerAfter(homeCacheDir, st', events[1..])
  }

  lemma SimulationStep(homeCacheDir: Option<Path>, st: TracerState, d: Descriptors, c: Call)
    requires Simulates(st.fileDescriptors, d) && KernelAllows(d, c)
    requires AfterEvent(homeCacheDir, st, Syscall(c)).Some?
    ensures Simulates(AfterEvent(homeCacheDir, st, Syscall(c)).value.fileDescriptors, KernelStep(d, c))
  {
  }

  /** The tracer never sees a close and still knows the right path of every live descriptor
      at every point of every life, numbers being reused as the kernel pleases. */
  lemma {:induction false} TracerSimulatesKernel(homeCacheDir: Option<Path>, st: TracerState, d: Descriptors, events: seq<Event>)
    requires Simulates(st.fileDescriptors, d) && Legal(d, events)
    requires TracerAfter(homeCacheDir, st, events).Some?
    ensures Simulates(TracerAfter(homeCacheDir, st, events).value.fileDescriptors, DescriptorsAfter(d, events))
    decreases |events|
  {
    if events != [] {
      var st' := AfterEvent(homeCacheDir, st, events[0]).value;
      if events[0].Syscall? {
        SimulationStep(homeCacheDir, st, d, events[0].call);
        TracerSimulatesKernel(homeCacheDir, st', KernelStep(d, events[0].call), events[1..]);
      } else {
        TracerSimulatesKernel(homeCacheDir, st', d, events[1..]);
      }
    }
  }

  // ---------- What the tracer has collected ----------

  /** Inserting the tracked ones of some paths. */
  function InsertTracked(homeCacheDir: Option<Path>, s: set<Path>, paths: seq<Path>): set<Path>
    decreases |paths|
  {
    if paths == [] then s
    else InsertTracked(homeCacheDir, if ShouldTrack(homeCacheDir, paths[0]) then InsertPath(s, paths[0]) else s, paths[1..])
  }

  /** Every path read through a live descriptor is one the process opened. */
  ghost predicate ReadsLive(d: Descriptors, events: seq<Event>)
    decreases |events|
  {
    events == [] ||
    (match events[0]
     case Delivery(_) => ReadsLive(d, events[1..])
     case Syscall(c) =>
       (IsRead(c) || IsList(c) ==> c.rdi in d && d[c.rdi].Opened?) && ReadsLive(KernelStep(d, c), events[1..]))
  }

  ghost predicate SignalsBenign(events: seq<Event>) {
    forall i | 0 <= i < |events| :: events[i].Delivery? ==> !events[i].signal.OtherSignal?
  }

  lemma {:induction false} InsertTrackedAppend(homeCacheDir: Option<Path>, s: set<Path>, a: seq<Path>, b: seq<Path>)
    ensures InsertTracked(homeCacheDir, s, a + b) == InsertTracked(homeCacheDir, InsertTracked(homeCacheDir, s, a), b)
    decreases |a|
  {
    if a == [] {
      assert a + b == b;
    } else {
      assert (a + b)[1..] == a[1..] + b;
      InsertTrackedAppend(homeCacheDir, if ShouldTrack(homeCacheDir, a[0]) then InsertPath(s, a[0]) else s, a[1..], b);
    }
  }

  lemma LiveStep(homeCacheDir: Option<Path>, st: TracerState, d: Descriptors, c: Call)
    requires Simulates(st.fileDescriptors, d) && KernelAllows(d, c)
    requires IsRead(c) || IsList(c) ==> c.rdi in d && d[c.rdi].Opened?
    ensures AfterEvent(homeCacheDir, st, Syscall(c)).Some?
    ensures AfterEvent(homeCacheDir, st, Syscall(c)).value.readFiles == InsertTracked(homeCacheDir, st.readFiles, ReadBy(d, c))
  {
    if IsRead(c) || IsList(c) {
      assert ReadBy(d, c)[1..] == [];
    }
  }

  /** For a process that reads only descriptors it opened, the tracer does not panic and has
      collected exactly the tracked paths read or listed. */
  lemma {:induction false} TracerIsExact(homeCacheDir: Option<Path>, st: TracerState, d: Descriptors, events: seq<Event>)
    requires Simulates(st.fileDescriptors, d) && Legal(d, events) && ReadsLive(d, events) && SignalsBenign(events)
    ensures TracerAfter(homeCacheDir, st, events).Some?
    ensures TracerAfter(homeCacheDir, st, events).value.readFiles == InsertTracked(homeCacheDir, st.readFiles, Reads(d, events))
    decreases |events|
  {
    if events != [] {
      assert !(events[0].Delivery? && events[0].signal.OtherSignal?);
      if events[0].Syscall? {
        var c := events[0].call;
        LiveStep(homeCacheDir, st, d, c);
        SimulationStep(homeCacheDir, st, d, c);
        TracerIsExact(homeCacheDir, AfterEvent(homeCacheDir, st, events[0]).value, KernelStep(d, c), events[1..]);
        InsertTrackedAppend(homeCacheDir, st.readFiles, ReadBy(d, c), Reads(KernelStep(d, c), events[1..]));
      } else {
        TracerIsExact(homeCacheDir, st, d, events[1..]);
      }
    }
  }

  // ---------- The set that is collected ----------

  ghost predicate Covered(s: set<Path>, p: Path) {
    exists q :: q in s && SamePath(q, p)
  }

  ghost predicate Distinct(s: set<Path>) {
    forall p, q | p in s && q in s && SamePath(p, q) :: p == q
  }

  lemma {:induction false} InsertTrackedMeaning(homeCacheDir: Option<Path>, s: set<Path>, paths: seq<Path>)
    ensures s <= InsertTracked(homeCacheDir, s, paths)
    ensures forall p | p in InsertTracked(homeCacheDir, s, paths) :: p in s || (p in paths && ShouldTrack(homeCacheDir, p))
    ensures forall p | p in paths && ShouldTrack(homeCacheDir, p) :: Covered(InsertTracked(homeCacheDir, s, paths), p)
    ensures Distinct(s) ==> Distinct(InsertTracked(homeCacheDir, s, paths))
    decreases |paths|
  {
    if paths != [] {
      var s' := if ShouldTrack(homeCacheDir, paths[0]) then InsertPath(s, paths[0]) else s;
      InsertTrackedMeaning(homeCacheDir, s', paths[1..]);
      var all := InsertTracked(homeCacheDir, s, paths);
      if ShouldTrack(homeCacheDir, paths[0]) {
        InsertCovers(s, paths[0]);
        var q :| q in s' && SamePath(q, paths[0]);
        assert q in all;
      }
      forall p | p in paths && ShouldTrack(homeCacheDir, p) ensures Covered(all, p) {
        if p != paths[0] { assert p in paths[1..]; }
      }
      if Distinct(s) {
        InsertDistinct(s, paths[0]);
      }
    }
  }

  lemma InsertCovers(s: set<Path>, p: Path)
    ensures Covered(InsertPath(s, p), p)
  {
    if !(exists q :: q in s && SamePath(q, p)) {
      assert p in InsertPath(s, p) && SamePath(p, p);
    }
  }

  lemma InsertDistinct(s: set<Path>, p: Path)
    requires Distinct(s)
    ensures Distinct(InsertPath(s, p))
  {
  }

  // ---------- Every life, stale numbers included ----------

  /** The path of the latest open that gave this number, closed since or not, or that failed
      with this number for its error. */
  function LastOpened(events: seq<Event>, fd: nat): Option<Path>
    decreases |events|
  {
    if events == [] then None
    else
      var front, e := events[..|events| - 1], events[|events| - 1];
      if e.Syscall? && IsOpen(e.call) && e.call.ret == fd then Some(PathAt(e.call.memory, AddressOf(e.call)))
      else LastOpened(front, fd)
  }

  /** What a read or listing asks for, going by the latest open of its number before it. */
  function AskedBy(before: seq<Event>, e: Event): seq<Path> {
    if e.Syscall? && (IsRead(e.call) || IsList(e.call)) && LastOpened(before, e.call.rdi).Some?
    then [LastOpened(before, e.call.rdi).value] else []
  }

  function AskedFor(events: seq<Event>): seq<Path>
    decreases |events|
  {
    if events == [] then []
    else AskedFor(events[..|events| - 1]) + AskedBy(events[..|events| - 1], events[|events| - 1])
  }

  /** Nothing the tracer panics on: a read or listing uses a number some open gave, a signal
      is one of the two it knows. */
  predicate CanAnswer(before: seq<Event>, e: Event) {
    match e
    case Delivery(signal) => !signal.OtherSignal?
    case Syscall(c) => IsRead(c) || IsList(c) ==> LastOpened(before, c.rdi).Some?
  }

  ghost predicate Answerable(events: seq<Event>) {
    forall i | 0 <= i < |events| :: CanAnswer(events[..i], events[i])
  }

  lemma {:induction false} TracerAfterSnoc(homeCacheDir: Option<Path>, st: TracerState, events: seq<Event>, e: Event)
    ensures TracerAfter(homeCacheDir, st, events + [e]) ==
            match TracerAfter(homeCacheDir, st, events)
            case None => None
            case Some(st') => AfterEvent(homeCacheDir, st', e)
    decreases |events|
  {
    if events == [] {
      assert events + [e] == [e] && [e][1..] == [];
    } else {
      assert (events + [e])[1..] == events[1..] + [e];
      if AfterEvent(homeCacheDir, st, events[0]).Some? {
        TracerAfterSnoc(homeCacheDir, AfterEvent(homeCacheDir, st, events[0]).value, events[1..], e);
      }
    }
  }

  /** The tracer's map is `LastOpened`. */
  ghost predicate Knows(known: map<nat, Path>, events: seq<Event>) {
    forall fd :: if fd in known then LastOpened(events, fd) == Some(known[fd]) else LastOpened(events, fd).None?
  }

  lemma KnowsStep(homeCacheDir: Option<Path>, st: TracerState, front: seq<Event>, e: Event)
    requires Knows(st.fileDescriptors, front)
    ensures AfterEvent(homeCacheDir, st, e).Some? <==> CanAnswer(front, e)
    ensures AfterEvent(homeCacheDir, st, e).Some? ==>
            var st' := AfterEvent(homeCacheDir, st, e).value;
            Knows(st'.fileDescriptors, front + [e]) &&
            st'.readFiles == InsertTracked(homeCacheDir, st.readFiles, AskedBy(front, e))
  {
    var events := front + [e];
    assert events[..|events| - 1] == front && events[|events| - 1] == e;
    if e.Syscall? && (IsRead(e.call) || IsList(e.call)) {
      var fd := e.call.rdi;
      assert if fd in st.fileDescriptors then LastOpened(front, fd) == Some(st.fileDescriptors[fd]) else LastOpened(front, fd).None?;
      assert AskedBy(front, e) != [] ==> AskedBy(front, e)[1..] == [];
    }
    if AfterEvent(homeCacheDir, st, e).Some? {
      var known := AfterEvent(homeCacheDir, st, e).value.fileDescriptors;
      forall fd ensures if fd in known then LastOpened(events, fd) == Some(known[fd]) else LastOpened(events, fd).None? {
        assert if fd in st.fileDescriptors then LastOpened(front, fd) == Some(st.fileDescriptors[fd]) else LastOpened(front, fd).None?;
      }
    }
  }

  lemma AnswerableSnoc(front: seq<Event>, e: Event)
    ensures Answerable(front + [e]) <==> Answerable(front) && CanAnswer(front, e)
  {
    var events := front + [e];
    assert events[|front|] == e && events[..|front|] == front;
    assert forall i | 0 <= i < |front| :: events[i] == front[i] && events[..i] == front[..i];
    if Answerable(events) {
      forall i | 0 <= i < |front| ensures CanAnswer(front[..i], front[i]) {
        assert CanAnswer(events[..i], events[i]);
      }
      assert CanAnswer(events[..|front|], events[|front|]);
    }
  }

  /** For every life whatever: the tracer panics exactly when something is not answerable,
      and otherwise has collected exactly the tracked paths asked for. */
  lemma {:induction false} TracerCollectsAskedFor(homeCacheDir: Option<Path>, events: seq<Event>)
    ensures TracerAfter(homeCacheDir, NEW_TRACER, events).Some? <==> Answerable(events)
    ensures TracerAfter(homeCacheDir, NEW_TRACER, events).Some? ==>
            var st := TracerAfter(homeCacheDir, NEW_TRACER, events).value;
            Knows(st.fileDescriptors, events) && st.readFiles == InsertTracked(homeCacheDir, {}, AskedFor(events))
    decreases |events|
  {
    if events != [] {
      var front, e := events[..|events| - 1], events[|events| - 1];
      assert events == front + [e];
      TracerCollectsAskedFor(homeCacheDir, front);
      TracerAfterSnoc(homeCacheDir, NEW_TRACER, front, e);
      AnswerableSnoc(front, e);
      if TracerAfter(homeCacheDir, NEW_TRACER, front).Some? {
        KnowsStep(homeCacheDir, TracerAfter(homeCacheDir, NEW_TRACER, front).value, front, e);
        InsertTrackedAppend(homeCacheDir, {}, AskedFor(front), AskedBy(front, e));
      }
    }
  }

  // ---------- Verdicts of watch ----------

  lemma {:induction false} ReplayIsTracerThenEnding(homeCacheDir: Option<Path>, st: TracerState, events: seq<Event>, ending: Ending)
    ensures Replay(homeCacheDir, st, events, ending) ==
            match TracerAfter(homeCacheDir, st, events)
            case None => Panicked
            case Some(st') => EndingResult(homeCacheDir, st', ending)
    decreases |events|
  {
    if events != [] && AfterEvent(homeCacheDir, st, events[0]).Some? {
      ReplayIsTracerThenEnding(homeCacheDir, AfterEvent(homeCacheDir, st, events[0]).value, events[1..], ending);
    }
  }

  /** The child first stops itself. */
  function LifeSeen(events: seq<Event>, ending: Ending): seq<WaitStatus> {
    [Stopped(OtherSignal(19))] + Seen(Stops(events, ending))
  }

  lemma WatchByTracer(homeCacheDir: Option<Path>, events: seq<Event>, ending: Ending)
    ensures WatchChild(homeCacheDir, LifeSeen(events, ending)) ==
            match TracerAfter(homeCacheDir, NEW_TRACER, events)
            case None => Panicked
            case Some(st) => EndingResult(homeCacheDir, st, ending)
  {
    ReplayIsTracerThenEnding(homeCacheDir, NEW_TRACER, events, ending);
    WatchIsReplay(homeCacheDir, NEW_TRACER, events, ending);
    assert LifeSeen(events, ending)[1..] == Seen(Stops(events, ending));
  }

  /** The verdict on a process that behaves: the complete and exact set when it exits, an
      error when it is killed while running. */
  lemma WatchOfGoodLife(homeCacheDir: Option<Path>, d: Descriptors, events: seq<Event>, ending: Ending)
    requires OnlyInherited(d) && Legal(d, events) && ReadsLive(d, events) && SignalsBenign(events)
    ensures ending.ExitGroup? ==>
              WatchChild(homeCacheDir, LifeSeen(events, ending)) == Files(InsertTracked(homeCacheDir, {}, Reads(d, events)))
    ensures ending.KilledRunning? ==> WatchChild(homeCacheDir, LifeSeen(events, ending)) == WatchError
  {
    TracerIsExact(homeCacheDir, NEW_TRACER, d, events);
    WatchByTracer(homeCacheDir, events, ending);
  }

  /** No call reads or lists through a live descriptor the process did not open itself. */
  ghost predicate InheritedUnread(d: Descriptors, events: seq<Event>)
    decreases |events|
  {
    events == [] ||
    (match events[0]
     case Delivery(_) => InheritedUnread(d, events[1..])
     case Syscall(c) =>
       ((IsRead(c) || IsList(c)) && c.rdi in d ==> d[c.rdi].Opened?) && InheritedUnread(KernelStep(d, c), events[1..]))
  }

  lemma CompleteStep(homeCacheDir: Option<Path>, st: TracerState, d: Descriptors, c: Call)
    requires Simulates(st.fileDescriptors, d)
    requires AfterEvent(homeCacheDir, st, Syscall(c)).Some?
    ensures st.readFiles <= AfterEvent(homeCacheDir, st, Syscall(c)).value.readFiles
    ensures forall p | p in ReadBy(d, c) && ShouldTrack(homeCacheDir, p) ::
              Covered(AfterEvent(homeCacheDir, st, Syscall(c)).value.readFiles, p)
  {
    if ReadBy(d, c) != [] {
      InsertCovers(st.readFiles, d[c.rdi].path);
    }
  }

  lemma {:induction false} TracerIsComplete(homeCacheDir: Option<Path>, st: TracerState, d: Descriptors, events: seq<Event>)
    requires Simulates(st.fileDescriptors, d) && Legal(d, events)
    requires TracerAfter(homeCacheDir, st, events).Some?
    ensures InheritedUnread(d, events)
    ensures st.readFiles <= TracerAfter(homeCacheDir, st, events).value.readFiles
    ensures forall p | p in Reads(d, events) && ShouldTrack(homeCacheDir, p) ::
              Covered(TracerAfter(homeCacheDir, st, events).value.readFiles, p)
    decreases |events|
  {
    if events != [] {
      var st' := AfterEvent(homeCacheDir, st, events[0]).value;
      if events[0].Syscall? {
        var c := events[0].call;
        CompleteStep(homeCacheDir, st, d, c);
        SimulationStep(homeCacheDir, st, d, c);
        TracerIsComplete(homeCacheDir, st', KernelStep(d, c), events[1..]);
      } else {
        TracerIsComplete(homeCacheDir, st', d, events[1..]);
      }
    }
  }

  /** The verdict on any process that exits by itself, however it uses its descriptors. */
  lemma WatchOfAnyLife(homeCacheDir: Option<Path>, events: seq<Event>, code: int)
    ensures WatchChild(homeCacheDir, LifeSeen(events, ExitGroup(code))) ==
            if Answerable(events) then Files(InsertTracked(homeCacheDir, {}, AskedFor(events))) else Panicked
  {
    TracerCollectsAskedFor(homeCacheDir, events);
    WatchByTracer(homeCacheDir, events, ExitGroup(code));
  }

  lemma TracerAfterCons(homeCacheDir: Option<Path>, st: TracerState, e: Event, rest: seq<Event>, st': TracerState)
    requires AfterEvent(homeCacheDir, st, e) == Some(st')
    ensures TracerAfter(homeCacheDir, st, [e] + rest) == TracerAfter(homeCacheDir, st', rest)
  {
    assert ([e] + rest)[1..] == rest;
  }

  lemma LegalCons(d: Descriptors, c: Call, rest: seq<Event>)
    requires KernelAllows(d, c) && Legal(KernelStep(d, c), rest)
    ensures Legal(d, [Syscall(c)] + rest)
    ensures Reads(d, [Syscall(c)] + rest) == ReadBy(d, c) + Reads(KernelStep(d, c), rest)
  {
    assert ([Syscall(c)] + rest)[1..] == rest;
  }

  /** Open, close, and read on the closed number. */
  function StaleRead(m: Memory, fd: nat): seq<Event> {
    [Syscall(Call(2, 0, 0, m, fd))] + ([Syscall(Call(CLOSE, fd, 0, m, 0))] + ([Syscall(Call(0, fd, 0, m, FIRST_ERROR))] + []))
  }

  lemma StaleReadIsLegal(m: Memory, fd: nat, none: Descriptors)
    requires PathAt(m, 0) == CString(m, 0) && fd < FIRST_ERROR && none == map[]
    ensures Legal(none, StaleRead(m, fd)) && Reads(none, StaleRead(m, fd)) == []
  {
    var opens, closes, stale := Call(2, 0, 0, m, fd), Call(CLOSE, fd, 0, m, 0), Call(0, fd, 0, m, FIRST_ERROR);
    var d := KernelStep(none, opens);
    assert KernelStep(d, closes) == none && KernelStep(none, stale) == none;
    LegalCons(none, stale, []);
    LegalCons(d, closes, [Syscall(stale)] + []);
    LegalCons(none, opens, [Syscall(closes)] + ([Syscall(stale)] + []));
  }

  lemma StaleReadTraced(homeCacheDir: Option<Path>, m: Memory, fd: nat)
    requires ShouldTrack(homeCacheDir, PathAt(m, 0))
    ensures TracerAfter(homeCacheDir, NEW_TRACER, StaleRead(m, fd)) ==
            Some(TracerState({PathAt(m, 0)}, map[fd := PathAt(m, 0)]))
  {
    var p := PathAt(m, 0);
    var e1, e2, e3 := Syscall(Call(2, 0, 0, m, fd)), Syscall(Call(CLOSE, fd, 0, m, 0)), Syscall(Call(0, fd, 0, m, FIRST_ERROR));
    var st, st' := TracerState({}, map[fd := p]), TracerState({p}, map[fd := p]);
    assert InsertPath({}, p) == {p};
    TracerAfterCons(homeCacheDir, NEW_TRACER, e1, [e2] + ([e3] + []), st);
    TracerAfterCons(homeCacheDir, st, e2, [e3] + [], st);
    TracerAfterCons(homeCacheDir, st, e3, [], st');
  }

  /** The set may hold more than was read: a read on a number closed before fails, and its
      path is collected all the same. */
  lemma StaleReadCollected(homeCacheDir: Option<Path>, m: Memory, fd: nat, none: Descriptors)
    requires PathAt(m, 0) == CString(m, 0) && fd < FIRST_ERROR && none == map[] && ShouldTrack(homeCacheDir, PathAt(m, 0))
    ensures Legal(none, StaleRead(m, fd)) && Reads(none, StaleRead(m, fd)) == []
    ensures WatchChild(homeCacheDir, LifeSeen(StaleRead(m, fd), ExitGroup(0))) == Files({PathAt(m, 0)})
  {
    StaleReadIsLegal(m, fd, none);
    StaleReadTraced(homeCacheDir, m, fd);
    WatchByTracer(homeCacheDir, StaleRead(m, fd), ExitGroup(0));
  }

  lemma EventKeepsDistinct(homeCacheDir: Option<Path>, st: TracerState, e: Event)
    requires Distinct(st.readFiles) && AfterEvent(homeCacheDir, st, e).Some?
    ensures Distinct(AfterEvent(homeCacheDir, st, e).value.readFiles)
  {
    if e.Syscall? && (IsRead(e.call) || IsList(e.call)) {
      InsertDistinct(st.readFiles, st.fileDescriptors[e.call.rdi]);
    }
  }

  lemma {:induction false} TracerKeepsDistinct(homeCacheDir: Option<Path>, st: TracerState, events: seq<Event>)
    requires Distinct(st.readFiles) && TracerAfter(homeCacheDir, st, events).Some?
    ensures Distinct(TracerAfter(homeCacheDir, st, events).value.readFiles)
    decreases |events|
  {
    if events != [] {
      EventKeepsDistinct(homeCacheDir, st, events[0]);
      TracerKeepsDistinct(homeCacheDir, AfterEvent(homeCacheDir, st, events[0]).value, events[1..]);
    }
  }

  lemma EndingKeepsDistinct(homeCacheDir: Option<Path>, st: TracerState, ending: Ending)
    requires Distinct(st.readFiles) && EndingResult(homeCacheDir, st, ending).Files?
    ensures Distinct(EndingResult(homeCacheDir, st, ending).files)
  {
    if !ending.ExitGroup? {
      EventKeepsDistinct(homeCacheDir, st, Syscall(ending.call));
    }
  }

  /** `watch` never answers with two spellings of one path. */
  lemma WatchIsDistinct(homeCacheDir: Option<Path>, events: seq<Event>, ending: Ending)
    requires WatchChild(homeCacheDir, LifeSeen(events, ending)).Files?
    ensures Distinct(WatchChild(homeCacheDir, LifeSeen(events, ending)).files)
  {
    WatchByTracer(homeCacheDir, events, ending);
    TracerKeepsDistinct(homeCacheDir, NEW_TRACER, events);
    EndingKeepsDistinct(homeCacheDir, TracerAfter(homeCacheDir, NEW_TRACER, events).value, ending);
  }

  /** However the process behaves and ends, if `watch` answers with a set then every tracked
      path read through a live descriptor before the end is in it, and nothing was read
      through a descriptor the process did not open (the tracer panics on those). */
  lemma WatchIsComplete(homeCacheDir: Option<Path>, d: Descriptors, events: seq<Event>, ending: Ending)
    requires OnlyInherited(d) && Legal(d, events)
    requires WatchChild(homeCacheDir, LifeSeen(events, ending)).Files?
    ensures InheritedUnread(d, events)
    ensures forall p | p in Reads(d, events) && ShouldTrack(homeCacheDir, p) ::
              Covered(WatchChild(homeCacheDir, LifeSeen(events, ending)).files, p)
  {
    WatchByTracer(homeCacheDir, events, ending);
    var st := TracerAfter(homeCacheDir, NEW_TRACER, events).value;
    TracerIsComplete(homeCacheDir, NEW_TRACER, d, events);
    EndingKeepsFiles(homeCacheDir, st, ending);
  }

  lemma EndingKeepsFiles(homeCacheDir: Option<Path>, st: TracerState, ending: Ending)
    requires EndingResult(homeCacheDir, st, ending).Files?
    ensures st.readFiles <= EndingResult(homeCacheDir, st, ending).files
  {
  }

  /** A kill is not always noticed. With the life good up to the kill, `watch` reports success
      exactly when the process dies inside a call that is neither a read nor an open, or
      while stopped at a read's entry or at any exit, where nobody looks at the status that
      says so. */
  lemma KillNoticedIff(homeCacheDir: Option<Path>, d: Descriptors, events: seq<Event>, ending: Ending)
    requires OnlyInherited(d) && Legal(d, events) && ReadsLive(d, events) && SignalsBenign(events)
    requires ending.KilledInside? || ending.KilledAtEntry? || ending.KilledAtExit?
    requires IsRead(ending.call) || IsList(ending.call) ==>
               ending.call.rdi in DescriptorsAfter(d, events) && DescriptorsAfter(d, events)[ending.call.rdi].Opened?
    ensures WatchChild(homeCacheDir, LifeSeen(events, ending)).Files? <==>
            (ending.KilledInside? && !IsRead(ending.call) && !IsOpen(ending.call)) ||
            (ending.KilledAtEntry? && IsRead(ending.call)) ||
            ending.KilledAtExit?
  {
    TracerIsExact(homeCacheDir, NEW_TRACER, d, events);
    TracerSimulatesKernel(homeCacheDir, NEW_TRACER, d, events);
    WatchByTracer(homeCacheDir, events, ending);
  }
}
