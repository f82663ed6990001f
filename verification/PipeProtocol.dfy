/** Parent and child around a miss: the child evaluates and writes its answer into a pipe
    while the parent does nothing but trace it; only when the child is gone does the parent
    read. The parent keeps its own copy of the writing end, so it never sees end of file. */
module PipeProtocol {
  import opened Options
  import opened Paths

  const NEWLINE: Byte := 10

  /** Writes up to this length are all or nothing (pipe(7), PIPE_BUF). */
  const PIPE_BUF: nat := 4096

  /** Pipe capacity, number of calls the evaluation makes before it has its answer, and the
      answer: none when the evaluation fails. */
  datatype Config = Config(capacity: nat, calls: nat, output: Option<seq<Byte>>)

  /** Where the child is with respect to its current call. Syscall stops hold it until the
      tracer resumes it. */
  datatype ChildPhase = Running | StoppedAtEntry | InCall | StoppedAtExit | Gone

  datatype Parent = Watching | Reading | Finished(line: seq<Byte>) | Failed

  datatype State = State(done: nat, toWrite: seq<seq<Byte>>, pipe: seq<Byte>, child: ChildPhase, parent: Parent)

  /** `write_all(p)` and `write("\n")`, or the newline alone on failure; writing nothing is
      no call at all. */
  function Chunks(c: Config): seq<seq<Byte>> {
    if c.output.None? || c.output.value == [] then [[NEWLINE]] else [c.output.value, [NEWLINE]]
  }

  function Concat(chunks: seq<seq<Byte>>): seq<Byte> {
    if chunks == [] then [] else chunks[0] + Concat(chunks[1..])
  }

  function Message(c: Config): seq<Byte> {
    Concat(Chunks(c))
  }

  function Init(c: Config): State {
    State(0, Chunks(c), [], Running, Watching)
  }

  /** `read_line`: up to and including the first newline. */
  function FirstLine(s: seq<Byte>): seq<Byte> {
    if s == [] then [] else if s[0] == NEWLINE then [NEWLINE] else [s[0]] + FirstLine(s[1..])
  }

  // ---------- Steps ----------

  /** The kernel finishes the call the child is in. A write may be cut short unless it is
      small enough to be atomic, and waits while there is no room. */
  ghost predicate CallCompletes(c: Config, s: State, s': State) {
    s.child.InCall? &&
    if s.done < c.calls then s' == s.(done := s.done + 1, child := StoppedAtExit)
    else if s.toWrite == [] then s' == s.(child := Gone)
    else exists k: nat :: WriteCompletes(c, s, k, s')
  }

  ghost predicate WriteCompletes(c: Config, s: State, k: nat, s': State)
    requires s.toWrite != []
  {
    var chunk := s.toWrite[0];
    && 0 < k <= |chunk|
    && |s.pipe| + k <= c.capacity
    && (|chunk| <= PIPE_BUF ==> k == |chunk|)
    && s' == s.(
         pipe := s.pipe + chunk[..k],
         toWrite := (if k == |chunk| then [] else [chunk[k..]]) + s.toWrite[1..],
         child := StoppedAtExit)
  }

  /** One step of child, kernel or parent. */
  ghost predicate Next(c: Config, s: State, s': State) {
    || (s.child.Running? && s' == s.(child := StoppedAtEntry))
    || (s.child.StoppedAtEntry? && s.parent.Watching? && s' == s.(child := InCall))
    || CallCompletes(c, s, s')
    || (s.child.StoppedAtExit? && s.parent.Watching? && s' == s.(child := Running))
    || (s.child.Gone? && s.parent.Watching? && s' == s.(parent := Reading))
    || (s.parent.Reading? && NEWLINE in s.pipe && s' == s.(parent := Finished(FirstLine(s.pipe))))
  }

  /** The child is killed, and the tracer notices or does not (`KillNoticedIff` in module
      TracedProcess says when it does not). */
  ghost predicate Kill(s: State, s': State) {
    s.parent.Watching? && !s.child.Gone? && (s' == s.(child := Gone) || s' == s.(child := Gone, parent := Failed))
  }

  /** A run from the start; `kills` says whether the child may be killed in it. */
  ghost predicate Run(c: Config, kills: bool, states: seq<State>) {
    && states != [] && states[0] == Init(c)
    && forall i | 0 < i < |states| :: Next(c, states[i - 1], states[i]) || (kills && Kill(states[i - 1], states[i]))
  }

  ghost predicate Stuck(c: Config, s: State) {
    forall s' :: !Next(c, s, s')
  }

  // ---------- Invariant ----------

  ghost predicate Inv(c: Config, s: State) {
    && s.done <= c.calls
    && s.pipe + Concat(s.toWrite) == Message(c)
    && |s.pipe| <= c.capacity
    && (forall i | 0 <= i < |s.toWrite| :: s.toWrite[i] != [])
    && (s.pipe != [] ==> s.done == c.calls)
    && (!s.parent.Watching? ==> s.child.Gone?)
    && (s.parent.Finished? ==> s.parent.line == FirstLine(Message(c)) && s.done == c.calls)
  }

  lemma {:induction false} FirstLineOfPrefix(a: seq<Byte>, b: seq<Byte>)
    requires NEWLINE in a
    ensures FirstLine(a + b) == FirstLine(a)
  {
    if a[0] != NEWLINE {
      assert (a + b)[1..] == a[1..] + b;
      FirstLineOfPrefix(a[1..], b);
    }
  }

  lemma WriteKeepsMessage(pipe: seq<Byte>, chunks: seq<seq<Byte>>, k: nat)
    requires chunks != [] && k <= |chunks[0]|
    ensures pipe + chunks[0][..k] + Concat((if k == |chunks[0]| then [] else [chunks[0][k..]]) + chunks[1..]) ==
            pipe + Concat(chunks)
  {
    var rest := chunks[1..];
    if k == |chunks[0]| {
      assert [] + rest == rest && chunks[0][..k] == chunks[0];
    } else {
      assert ([chunks[0][k..]] + rest)[1..] == rest;
      assert chunks[0] == chunks[0][..k] + chunks[0][k..];
    }
  }

  lemma InvStep(c: Config, s: State, s': State)
    requires Inv(c, s) && (Next(c, s, s') || Kill(s, s'))
    ensures Inv(c, s')
  {
    if CallCompletes(c, s, s') && s.done >= c.calls && s.toWrite != [] {
      var k: nat :| WriteCompletes(c, s, k, s');
      WriteKeepsMessage(s.pipe, s.toWrite, k);
    } else if s.parent.Reading? && NEWLINE in s.pipe {
      FirstLineOfPrefix(s.pipe, Concat(s.toWrite));
    }
  }

  lemma {:induction false} InvHolds(c: Config, kills: bool, states: seq<State>)
    requires Run(c, kills, states)
    ensures Inv(c, states[|states| - 1])
    decreases |states|
  {
    var n := |states| - 1;
    if n == 0 {
      assert [] + Message(c) == Message(c);
    } else {
      InvHolds(c, kills, states[..n]);
      InvStep(c, states[n - 1], states[n]);
    }
  }

  // ---------- Termination ----------

  function PhaseRank(p: ChildPhase): nat {
    match p
    case Gone => 0
    case StoppedAtExit => 4
    case Running => 3
    case StoppedAtEntry => 2
    case InCall => 1
  }

  function ParentRank(p: Parent): nat {
    match p
    case Watching => 2
    case Reading => 1
    case _ => 0
  }

  /** Everything still to be done, in steps. */
  function Measure(c: Config, s: State): nat {
    4 * ((if s.done < c.calls then c.calls - s.done else 0) + |Concat(s.toWrite)|) + PhaseRank(s.child) + ParentRank(s.parent)
  }

  lemma MeasureDecreases(c: Config, s: State, s': State)
    requires Inv(c, s) && (Next(c, s, s') || Kill(s, s'))
    ensures Measure(c, s') < Measure(c, s)
  {
    if CallCompletes(c, s, s') && s.done >= c.calls && s.toWrite != [] {
      var k: nat :| WriteCompletes(c, s, k, s');
      WriteKeepsMessage(s.pipe, s.toWrite, k);
      assert |s'.pipe + Concat(s'.toWrite)| == |s.pipe + Concat(s.toWrite)|;
    }
  }

  /** No run is longer than the measure of its start: the two processes never chase each
      other for ever. */
  lemma {:induction false} RunsAreBounded(c: Config, kills: bool, states: seq<State>)
    requires Run(c, kills, states)
    ensures |states| - 1 + Measure(c, states[|states| - 1]) <= Measure(c, Init(c))
    decreases |states|
  {
    var n := |states| - 1;
    if n > 0 {
      RunsAreBounded(c, kills, states[..n]);
      InvHolds(c, kills, states[..n]);
      MeasureDecreases(c, states[n - 1], states[n]);
    }
  }

  // ---------- Where runs end ----------

  /** The child waits for room in the pipe and the parent for the child. */
  ghost predicate WriteBlocked(c: Config, s: State) {
    && s.child.InCall? && s.parent.Watching? && s.done == c.calls && s.toWrite != []
    && (|s.pipe| == c.capacity || (|s.toWrite[0]| <= PIPE_BUF && |s.pipe| + |s.toWrite[0]| > c.capacity))
  }

  /** The child died before a newline was written and the parent waits for one, itself
      holding the pipe open. */
  ghost predicate NoNewline(s: State) {
    s.child.Gone? && s.parent.Reading? && NEWLINE !in s.pipe
  }

  lemma StuckStates(c: Config, s: State)
    requires Inv(c, s) && Stuck(c, s)
    ensures s.parent.Finished? || s.parent.Failed? || WriteBlocked(c, s) || NoNewline(s)
  {
    if s.parent.Reading? {
      if NEWLINE in s.pipe {
        assert Next(c, s, s.(parent := Finished(FirstLine(s.pipe))));
      }
    } else if s.parent.Watching? {
      match s.child
      case Running => assert Next(c, s, s.(child := StoppedAtEntry));
      case StoppedAtEntry => assert Next(c, s, s.(child := InCall));
      case StoppedAtExit => assert Next(c, s, s.(child := Running));
      case Gone => assert Next(c, s, s.(parent := Reading));
      case InCall => StuckInCall(c, s);
    }
  }

  lemma StuckInCall(c: Config, s: State)
    requires Inv(c, s) && Stuck(c, s) && s.child.InCall? && s.parent.Watching?
    ensures WriteBlocked(c, s)
  {
    if s.done < c.calls {
      assert Next(c, s, s.(done := s.done + 1, child := StoppedAtExit));
    } else if s.toWrite == [] {
      assert Next(c, s, s.(child := Gone));
    } else if !WriteBlocked(c, s) {
      var chunk := s.toWrite[0];
      var k := if |chunk| <= PIPE_BUF then |chunk| else 1;
      var s' := s.(
        pipe := s.pipe + chunk[..k],
        toWrite := (if k == |chunk| then [] else [chunk[k..]]) + s.toWrite[1..],
        child := StoppedAtExit);
      assert WriteCompletes(c, s, k, s');
      assert Next(c, s, s');
    }
  }

  /** Without kills the child is gone only when it has written everything. */
  lemma {:induction false} GoneMeansWritten(c: Config, states: seq<State>)
    requires Run(c, false, states)
    ensures var s := states[|states| - 1];
            !s.parent.Failed? && (s.child.Gone? ==> s.done == c.calls && s.toWrite == [])
    decreases |states|
  {
    var n := |states| - 1;
    if n > 0 {
      GoneMeansWritten(c, states[..n]);
      InvHolds(c, false, states[..n]);
      var s, s' := states[n - 1], states[n];
      assert Next(c, s, s');
    }
  }

  lemma MessageIs(c: Config)
    ensures Message(c) == (if c.output.Some? then c.output.value else []) + [NEWLINE]
  {
    var chunks := Chunks(c);
    assert Concat([[NEWLINE]]) == [NEWLINE] by {
      assert [[NEWLINE]][1..] == [];
      assert [NEWLINE] + [] == [NEWLINE];
    }
    if |chunks| == 2 {
      assert chunks[1..] == [[NEWLINE]];
    }
  }

  lemma MessageHasNewline(c: Config)
    ensures NEWLINE in Message(c)
  {
    MessageIs(c);
  }

  lemma HeadFits(chunks: seq<seq<Byte>>)
    requires chunks != []
    ensures |Concat(chunks)| >= |chunks[0]|
  {
  }

  /** Undisturbed, every run that can go no further has finished exactly when answer and
      newline together fit the pipe; otherwise it is a deadlock on the full pipe. Runs being
      bounded, this decides the outcome of the protocol. */
  lemma CompletesIffFits(c: Config, states: seq<State>)
    requires Run(c, false, states) && Stuck(c, states[|states| - 1])
    ensures var s := states[|states| - 1];
            && (s.parent.Finished? <==> |Message(c)| <= c.capacity)
            && (WriteBlocked(c, s) <==> |Message(c)| > c.capacity)
            && (s.parent.Finished? ==> s.parent.line == FirstLine(Message(c)))
  {
    var s := states[|states| - 1];
    InvHolds(c, false, states);
    GoneMeansWritten(c, states);
    StuckStates(c, s);
    assert |Message(c)| == |s.pipe| + |Concat(s.toWrite)|;
    if s.child.Gone? {
      assert s.pipe + [] == s.pipe;
      MessageHasNewline(c);
    } else {
      HeadFits(s.toWrite);
    }
  }

  /** Killed or not, a parent that gets a line has the line of the complete answer, and the
      child had made all the calls of its evaluation before: nothing is ever stored from a
      half-finished evaluation or a half-written line. */
  lemma FinishedIsComplete(c: Config, kills: bool, states: seq<State>)
    requires Run(c, kills, states) && states[|states| - 1].parent.Finished?
    ensures states[|states| - 1].parent.line == FirstLine(Message(c))
    ensures states[|states| - 1].done == c.calls
  {
    InvHolds(c, kills, states);
  }

  /** A kill the tracer misses before any newline is in the pipe leaves the parent waiting
      for ever. */
  lemma MissedKillHangs(c: Config, s: State)
    requires Inv(c, s) && NoNewline(s)
    ensures Stuck(c, s) && !s.parent.Finished? && !s.parent.Failed?
  {
  }

  lemma {:induction false} ExtendToStuck(c: Config, states: seq<State>) returns (full: seq<State>)
    requires Run(c, false, states)
    ensures Run(c, false, full) && Stuck(c, full[|full| - 1])
    decreases Measure(c, states[|states| - 1])
  {
    var s := states[|states| - 1];
    if Stuck(c, s) {
      full := states;
    } else {
      var s' :| Next(c, s, s');
      InvHolds(c, false, states);
      MeasureDecreases(c, s, s');
      full := ExtendToStuck(c, states + [s']);
    }
  }

  /** A parent and child left alone with a pipe that is large enough do finish. */
  lemma FinishedRunExists(c: Config) returns (states: seq<State>)
    requires |Message(c)| <= c.capacity
    ensures Run(c, false, states) && states[|states| - 1].parent.Finished?
  {
    states := ExtendToStuck(c, [Init(c)]);
    CompletesIffFits(c, states);
  }

  lemma {:induction false} LineOfText(s: seq<Byte>, rest: seq<Byte>)
    requires NEWLINE !in s
    ensures FirstLine(s + [NEWLINE] + rest) == s + [NEWLINE]
  {
    var all := s + [NEWLINE] + rest;
    if s == [] {
      assert all[0] == NEWLINE;
    } else {
      assert all[1..] == s[1..] + [NEWLINE] + rest;
      LineOfText(s[1..], rest);
    }
  }

  lemma {:induction false} FirstLineHasOneNewline(s: seq<Byte>)
    ensures forall i | 0 <= i < |FirstLine(s)| - 1 :: FirstLine(s)[i] != NEWLINE
  {
    if s != [] && s[0] != NEWLINE {
      FirstLineHasOneNewline(s[1..]);
    }
  }

  /** The line is the whole message exactly when the answer has no newline of its own; of
      any other answer only the first line comes through. */
  lemma LineIsMessageIff(c: Config)
    requires c.output.Some?
    ensures FirstLine(Message(c)) == Message(c) <==> NEWLINE !in c.output.value
  {
    var out := c.output.value;
    MessageIs(c);
    if NEWLINE !in out {
      LineOfText(out, []);
      assert out + [NEWLINE] + [] == out + [NEWLINE];
    } else {
      FirstLineHasOneNewline(Message(c));
      var i :| 0 <= i < |out| && out[i] == NEWLINE;
      assert Message(c)[i] == NEWLINE;
    }
  }
}
