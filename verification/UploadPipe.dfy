/** An upload on its way: a blocking producer, a bounded pipe, a result channel, and the body that is polled,
    in every interleaving. */
module UploadPipe {
  import opened Bytes

  const CHUNK_BYTES := 256 * 1024
  const PIPE_BYTES := 256 * 1024

  /** What the producer does next. `rest` is what it has read and not yet written. */
  datatype Phase =
    | Reading
    | Writing(rest: seq<byte>)
    | Sending(ok: bool)
    | Dropping
    | Unwinding
    | Gone

  datatype Channel = Waiting | Holds(ok: bool) | SenderDropped

  datatype Signal = Clean | Failure

  /** `produced` are the bytes the source gave, `ended` whether it then ended without error, `broke` whether it
      failed or panicked. */
  datatype State = State(phase: Phase, produced: seq<byte>, ended: bool, broke: bool,
                         pipe: seq<byte>, writerOpen: bool, channel: Channel,
                         received: seq<byte>, signal: Option<Signal>, dropped: bool)

  datatype Step =
    | SourceData(bytes: seq<byte>) | SourceEnd | SourceError | Panic
    | Write(count: nat) | WriteFails | Send | DropWriter | DropSender
    | Poll(capacity: nat) | DropBody

  function Init(): State {
    State(Reading, [], false, false, [], true, Waiting, [], None, false)
  }

  function Unwritten(phase: Phase): seq<byte> {
    if phase.Writing? then phase.rest else []
  }

  predicate Enabled(s: State, step: Step) {
    match step
    case SourceData(bytes) => s.phase.Reading? && 0 < |bytes| <= CHUNK_BYTES
    case SourceEnd | SourceError => s.phase.Reading?
    case Panic => s.phase.Reading? || s.phase.Writing?
    case Write(count) => s.phase.Writing? && !s.dropped && 0 < count <= |s.phase.rest| && |s.pipe| + count <= PIPE_BYTES
    case WriteFails => s.phase.Writing? && s.dropped
    case Send => s.phase.Sending?
    case DropWriter => s.writerOpen && (s.phase.Dropping? || s.phase.Unwinding?)
    case DropSender => s.channel.Waiting? && s.phase.Unwinding?
    case Poll(_) => !s.dropped
    case DropBody => !s.dropped
  }

  /** One poll of the body. Bytes come first; the end of the pipe counts only together with the result.
      Polls after the first reported end read nothing and report nothing. */
  function Polled(s: State, capacity: nat): State {
    if s.signal.Some? || capacity == 0 then s
    else if s.pipe != [] then
      var count := Min(capacity, |s.pipe|);
      s.(received := s.received + s.pipe[..count], pipe := s.pipe[count..])
    else if s.writerOpen then s
    else
      match s.channel
      case Waiting => s
      case Holds(ok) => s.(signal := Some(if ok then Clean else Failure))
      case SenderDropped => s.(signal := Some(Failure))
  }

  /** What a poll answers: `Nothing` is ready without a byte, which reads as the end. */
  datatype Reply = Pending | Bytes(bytes: seq<byte>) | Nothing | Error

  function ReplyOf(s: State, capacity: nat): Reply {
    if s.signal.Some? || capacity == 0 then Nothing
    else if s.pipe != [] then Bytes(s.pipe[..Min(capacity, |s.pipe|)])
    else if s.writerOpen then Pending
    else
      match s.channel
      case Waiting => Pending
      case Holds(ok) => if ok then Nothing else Error
      case SenderDropped => Error
  }

  function Apply(s: State, step: Step): State
    requires Enabled(s, step)
  {
    match step
    case SourceData(bytes) =>
      s.(phase := Writing(bytes), produced := s.produced + bytes)
    case SourceEnd => s.(phase := Sending(true), ended := true)
    case SourceError => s.(phase := Sending(false), broke := true)
    case Panic => s.(phase := Unwinding, broke := true)
    case Write(count) =>
      var rest := s.phase.rest[count..];
      s.(pipe := s.pipe + s.phase.rest[..count], phase := if rest == [] then Reading else Writing(rest))
    case WriteFails => s.(phase := Sending(false))
    case Send => s.(channel := Holds(s.phase.ok), phase := Dropping)
    case DropWriter => s.(writerOpen := false, phase := if s.phase.Dropping? || !s.channel.Waiting? then Gone else s.phase)
    case DropSender => s.(channel := SenderDropped, phase := if s.writerOpen then s.phase else Gone)
    case Poll(capacity) => Polled(s, capacity)
    case DropBody => s.(dropped := true)
  }

  /** Every byte is delivered, in the pipe, or still with the producer, unless a write failed. */
  ghost predicate Accounted(s: State) {
    && (s.received + s.pipe + Unwritten(s.phase) <= s.produced)
    && (!s.broke && !s.dropped ==> s.produced == s.received + s.pipe + Unwritten(s.phase))
    && |s.pipe| <= PIPE_BYTES && |Unwritten(s.phase)| <= CHUNK_BYTES
    && |s.produced| - |s.received| <= |s.pipe| + CHUNK_BYTES
  }

  ghost predicate Staged(s: State) {
    match s.phase
    case Reading | Writing(_) => s.writerOpen && s.channel.Waiting? && !s.ended && !s.broke && s.signal.None?
    case Sending(ok) => s.writerOpen && s.channel.Waiting? && ok == s.ended && s.signal.None?
    case Dropping => s.writerOpen && s.channel == Holds(s.ended) && s.signal.None?
    case Unwinding => s.broke && !s.ended && (s.writerOpen || s.channel.Waiting?) && !s.channel.Holds? && s.signal.None?
    case Gone => !s.writerOpen && (s.channel == Holds(s.ended) || (s.channel.SenderDropped? && s.broke && !s.ended))
  }

  ghost predicate Inv(s: State) {
    && Accounted(s) && Staged(s) && !(s.ended && s.broke)
    && (s.phase.Writing? ==> s.phase.rest != [])
    && (s.phase.Sending? && !s.dropped ==> s.phase.ok != s.broke)
    && ((s.phase.Dropping? || s.phase.Gone?) && !s.dropped ==> s.ended != s.broke)
    && (s.phase.Reading? || s.phase.Writing? || s.ended ==> Whole(s))
    && (s.signal.Some? ==> s.phase.Gone?)
    && (s.signal == Some(Clean) ==> s.ended && s.received == s.produced)
    && (s.signal == Some(Failure) ==> s.broke)
  }

  ghost predicate Whole(s: State) {
    s.produced == s.received + s.pipe + Unwritten(s.phase)
  }

  lemma PollKeeps(s: State, capacity: nat)
    requires Inv(s) && !s.dropped
    ensures Inv(Polled(s, capacity))
  {
    if s.signal.None? && capacity > 0 && s.pipe != [] {
      var count := Min(capacity, |s.pipe|);
      assert s.received + s.pipe[..count] + s.pipe[count..] == s.received + s.pipe;
    }
  }

  lemma WriteKeeps(s: State, count: nat)
    requires Inv(s) && Enabled(s, Write(count))
    ensures Inv(Apply(s, Write(count)))
  {
    var rest := s.phase.rest;
    var next := Apply(s, Write(count));
    assert rest == rest[..count] + rest[count..];
    assert next.received + next.pipe + Unwritten(next.phase) == s.received + s.pipe + rest;
  }

  lemma StepKeeps(s: State, step: Step)
    requires Inv(s) && Enabled(s, step)
    ensures Inv(Apply(s, step))
  {
    match step
    case Poll(capacity) => PollKeeps(s, capacity);
    case Write(count) => WriteKeeps(s, count);
    case SourceData(bytes) =>
      assert s.received + s.pipe + Unwritten(s.phase) == s.received + s.pipe;
    case _ =>
  }

  ghost predicate Legal(s: State, steps: seq<Step>)
    decreases |steps|
  {
    steps == [] || (Enabled(s, steps[0]) && Legal(Apply(s, steps[0]), steps[1..]))
  }

  function Run(s: State, steps: seq<Step>): State
    requires Legal(s, steps)
    decreases |steps|
  {
    if steps == [] then s else Run(Apply(s, steps[0]), steps[1..])
  }

  lemma {:induction false} RunKeeps(s: State, steps: seq<Step>)
    requires Inv(s) && Legal(s, steps)
    ensures Inv(Run(s, steps))
    decreases |steps|
  {
    hide Inv, Enabled, Apply;
    if steps != [] {
      StepKeeps(s, steps[0]);
      RunKeeps(Apply(s, steps[0]), steps[1..]);
    }
  }

  // ------------------------------------------------ what a run gave and answered

  /** The bytes the source gave in these steps. */
  function Given(steps: seq<Step>): seq<byte> {
    if steps == [] then []
    else (if steps[0].SourceData? then steps[0].bytes else []) + Given(steps[1..])
  }

  /** The bytes the polls of a run answered with. */
  function Delivered(s: State, steps: seq<Step>): seq<byte>
    requires Legal(s, steps)
    decreases |steps|
  {
    if steps == [] then []
    else
      var reply := if steps[0].Poll? then ReplyOf(s, steps[0].capacity) else Pending;
      (if reply.Bytes? then reply.bytes else []) + Delivered(Apply(s, steps[0]), steps[1..])
  }

  /** Whether some poll of a run answered with an error. */
  predicate Failed(s: State, steps: seq<Step>)
    requires Legal(s, steps)
    decreases |steps|
  {
    steps != []
    && ((steps[0].Poll? && ReplyOf(s, steps[0].capacity).Error?) || Failed(Apply(s, steps[0]), steps[1..]))
  }

  predicate IsRead(step: Step) {
    step.SourceData? || step.SourceEnd? || step.SourceError?
  }

  function Reads(steps: seq<Step>): nat {
    if steps == [] then 0 else (if IsRead(steps[0]) then 1 else 0) + Reads(steps[1..])
  }

  function ReadsAfterDrop(steps: seq<Step>): nat {
    if steps == [] then 0
    else if steps[0].DropBody? then Reads(steps[1..])
    else ReadsAfterDrop(steps[1..])
  }

  predicate Breaks(steps: seq<Step>) {
    SourceError in steps || Panic in steps
  }

  lemma InSteps(steps: seq<Step>, step: Step)
    requires steps != []
    ensures step in steps <==> step == steps[0] || step in steps[1..]
  {
    assert steps == [steps[0]] + steps[1..];
  }

  /** The state only remembers what the steps were and what the polls answered. */
  lemma {:induction false} RunRemembers(s: State, steps: seq<Step>)
    requires Legal(s, steps)
    ensures
      var after := Run(s, steps);
      && after.produced == s.produced + Given(steps)
      && after.received == s.received + Delivered(s, steps)
      && after.ended == (s.ended || SourceEnd in steps)
      && after.broke == (s.broke || Breaks(steps))
      && (after.signal == Some(Failure) <==> s.signal == Some(Failure) || Failed(s, steps))
    decreases |steps|
  {
    hide Enabled, Apply, ReplyOf;
    if steps != [] {
      InSteps(steps, SourceEnd);
      BreaksFirst(steps);
      StepRemembers(s, steps[0]);
      RunRemembers(Apply(s, steps[0]), steps[1..]);
    }
  }

  lemma BreaksFirst(steps: seq<Step>)
    requires steps != []
    ensures Breaks(steps) <==> steps[0] == SourceError || steps[0] == Panic || Breaks(steps[1..])
  {
    InSteps(steps, SourceError);
    InSteps(steps, Panic);
  }

  lemma StepRemembers(s: State, step: Step)
    requires Enabled(s, step)
    ensures
      var after, reply := Apply(s, step), if step.Poll? then ReplyOf(s, step.capacity) else Pending;
      && after.produced == s.produced + (if step.SourceData? then step.bytes else [])
      && after.received == s.received + (if reply.Bytes? then reply.bytes else [])
      && after.ended == (s.ended || step == SourceEnd)
      && after.broke == (s.broke || step == SourceError || step == Panic)
      && (after.signal == Some(Failure) <==> s.signal == Some(Failure) || reply.Error?)
  {
    hide Enabled, Polled, ReplyOf;
    if step.Poll? {
      PollRemembers(s, step.capacity);
    }
  }

  lemma PollRemembers(s: State, capacity: nat)
    ensures
      var after, reply := Polled(s, capacity), ReplyOf(s, capacity);
      && after.received == s.received + (if reply.Bytes? then reply.bytes else [])
      && after.produced == s.produced && after.ended == s.ended && after.broke == s.broke
      && (after.signal == Some(Failure) <==> s.signal == Some(Failure) || reply.Error?)
  {
  }

  /** The same for a whole run. */
  lemma RunFromStart(steps: seq<Step>)
    requires Legal(Init(), steps)
    ensures
      var s := Run(Init(), steps);
      && Inv(s) && s.produced == Given(steps) && s.received == Delivered(Init(), steps)
      && s.ended == (SourceEnd in steps) && s.broke == Breaks(steps)
      && (s.signal == Some(Failure) <==> Failed(Init(), steps))
  {
    hide Breaks, Given, Delivered, Failed, Run, Legal;
    RunKeeps(Init(), steps);
    RunRemembers(Init(), steps);
  }

  lemma {:induction false} FewReads(s: State, steps: seq<Step>)
    requires Legal(s, steps)
    ensures s.dropped ==> Reads(steps) <= if s.phase.Reading? then 1 else 0
    ensures !s.dropped ==> ReadsAfterDrop(steps) <= 1
    decreases |steps|
  {
    if steps != [] {
      FewReads(Apply(s, steps[0]), steps[1..]);
    }
  }

  /** In every run, measured by what the source gave and what the polls answered: the body is always a prefix of the
      source, at most a pipe and a chunk behind it; a poll answers with an error only if the source failed; as long as
      none has, it answers like an end only if the source ended without error and every byte has arrived in order;
      and once the body is dropped the source is read at most once more. */
  lemma UploadSafe(steps: seq<Step>, capacity: nat)
    requires Legal(Init(), steps) && capacity > 0
    ensures
      var s, body := Run(Init(), steps), Delivered(Init(), steps);
      && body <= Given(steps)
      && |Given(steps)| - |body| <= PIPE_BYTES + CHUNK_BYTES
      && (Failed(Init(), steps) ==> Breaks(steps))
      && ReadsAfterDrop(steps) <= 1
      && (!s.dropped ==>
            match ReplyOf(s, capacity)
            case Pending => s.pipe == [] && !s.phase.Gone?
            case Bytes(bytes) => 0 < |bytes| <= capacity && body + bytes <= Given(steps)
            case Nothing => Failed(Init(), steps) || (SourceEnd in steps && !Breaks(steps) && body == Given(steps))
            case Error => Breaks(steps))
  {
    hide Failed, Reads, ReadsAfterDrop, Given, Delivered, Legal, Run;
    var s := Run(Init(), steps);
    RunFromStart(steps);
    FewReads(Init(), steps);
    if !s.dropped {
      ReplyMeans(s, capacity);
    }
  }

  lemma ReplyMeans(s: State, capacity: nat)
    requires Inv(s) && !s.dropped && capacity > 0
    ensures
      match ReplyOf(s, capacity)
      case Pending => s.pipe == [] && !s.phase.Gone?
      case Bytes(bytes) => 0 < |bytes| <= capacity && s.received + bytes <= s.produced
      case Nothing => s.signal == Some(Failure) || (s.ended && s.received == s.produced)
      case Error => s.broke
  {
    var reply := ReplyOf(s, capacity);
    if reply.Nothing? {
      EndAnswer(s, capacity);
    }
    if reply.Bytes? {
      assert s.received + s.pipe <= s.produced;
      assert s.received + reply.bytes <= s.received + s.pipe;
    }
  }

  /** Once the producer is gone and the pipe is empty, the next poll reports the end: clean exactly when the source
      ended without error. */
  lemma EndIsReported(steps: seq<Step>, capacity: nat)
    requires Legal(Init(), steps) && capacity > 0
    requires
      var s := Run(Init(), steps);
      s.phase.Gone? && !s.dropped && s.pipe == [] && s.signal.None?
    ensures ReplyOf(Run(Init(), steps), capacity) == if SourceEnd in steps then Nothing else Error
  {
    RunFromStart(steps);
  }

  /** In every run, a poll that answers like an end means that the source ended without error and everything it gave
      has arrived, exactly when no failure has been reported before. */
  lemma EndAnswerMeans(steps: seq<Step>, capacity: nat)
    requires Legal(Init(), steps) && capacity > 0
    requires !Run(Init(), steps).dropped && ReplyOf(Run(Init(), steps), capacity).Nothing?
    ensures !Failed(Init(), steps) <==> SourceEnd in steps && Delivered(Init(), steps) == Given(steps)
  {
    hide Failed, Given, Delivered, Legal, Run;
    RunFromStart(steps);
    EndAnswer(Run(Init(), steps), capacity);
  }

  lemma EndAnswer(s: State, capacity: nat)
    requires Inv(s) && !s.dropped && capacity > 0 && ReplyOf(s, capacity).Nothing?
    ensures s.signal != Some(Failure) <==> s.ended && s.received == s.produced
  {
    match s.signal
    case None =>
      assert s.phase.Gone? && s.ended;
      assert s.received + s.pipe + Unwritten(s.phase) == s.received;
    case Some(Clean) =>
    case Some(Failure) =>
  }

  /** The producer is never stuck: in every run it is gone, or it can take a step, or the pipe is full and a poll
      makes room. */
  lemma ProducerMoves(steps: seq<Step>)
    requires Legal(Init(), steps)
    ensures
      var s := Run(Init(), steps);
      || s.phase.Gone?
      || (exists step: Step :: !step.Poll? && !step.DropBody? && Enabled(s, step))
      || (!s.dropped && |s.pipe| == PIPE_BYTES && ReplyOf(s, 1).Bytes?)
  {
    RunKeeps(Init(), steps);
    var s := Run(Init(), steps);
    PipeFits(s);
    hide Run, Legal, Accounted, Whole, ReplyOf;
    match s.phase
    case Reading => assert Enabled(s, SourceEnd);
    case Writing(rest) =>
      if s.dropped {
        assert Enabled(s, WriteFails);
      } else if |s.pipe| < PIPE_BYTES {
        assert Enabled(s, Write(1));
      } else {
        FullPipe(s);
      }
    case Sending(_) => assert Enabled(s, Send);
    case Dropping => assert Enabled(s, DropWriter);
    case Unwinding => assert Enabled(s, if s.writerOpen then DropWriter else DropSender);
    case Gone =>
  }

  lemma FullPipe(s: State)
    requires Inv(s) && s.phase.Writing? && s.pipe != []
    ensures ReplyOf(s, 1).Bytes?
  {
  }

  lemma PipeFits(s: State)
    requires Inv(s)
    ensures |s.pipe| <= PIPE_BYTES
  {
  }

  /** After a failure has been reported the next poll does look like an end: here, of a source that fails at once. */
  lemma FailureThenEnd()
    ensures
      var before, steps := [SourceError, Send, DropWriter], [SourceError, Send, DropWriter, Poll(1)];
      && Legal(Init(), before) && ReplyOf(Run(Init(), before), 1) == Error
      && Legal(Init(), steps) && ReplyOf(Run(Init(), steps), 1) == Nothing
      && SourceEnd !in steps
  {
    var s1 := Apply(Init(), SourceError);
    var s2 := Apply(s1, Send);
    var s3 := Apply(s2, DropWriter);
    var s4 := Apply(s3, Poll(1));
    RunThree(Init(), SourceError, Send, DropWriter);
    RunFour(Init(), SourceError, Send, DropWriter, Poll(1));
    assert !s3.writerOpen && s3.channel == Holds(false) && s4.signal == Some(Failure);
    assert ReplyOf(s3, 1) == Error && ReplyOf(s4, 1) == Nothing;
  }

  /** A producer that panics is reported as a failure too, although it sends no result. */
  lemma PanicIsReported()
    ensures
      var steps := [Panic, DropWriter, DropSender];
      Legal(Init(), steps) && ReplyOf(Run(Init(), steps), 1) == Error && Run(Init(), steps).phase.Gone?
  {
    var s1 := Apply(Init(), Panic);
    var s2 := Apply(s1, DropWriter);
    var s3 := Apply(s2, DropSender);
    RunThree(Init(), Panic, DropWriter, DropSender);
    assert !s3.writerOpen && s3.channel.SenderDropped?;
  }

  lemma RunThree(s: State, a: Step, b: Step, c: Step)
    requires Enabled(s, a) && Enabled(Apply(s, a), b) && Enabled(Apply(Apply(s, a), b), c)
    ensures Legal(s, [a, b, c]) && Run(s, [a, b, c]) == Apply(Apply(Apply(s, a), b), c)
  {
    hide Enabled, Apply;
    var s2 := Apply(Apply(s, a), b);
    assert [a, b, c][1..] == [b, c] && [b, c][1..] == [c] && [c][1..] == [];
    assert Legal(s2, [c]) && Run(s2, [c]) == Apply(s2, c);
    assert Legal(Apply(s, a), [b, c]) && Run(Apply(s, a), [b, c]) == Apply(s2, c);
  }

  lemma RunFour(s: State, a: Step, b: Step, c: Step, d: Step)
    requires Enabled(s, a) && Enabled(Apply(s, a), b) && Enabled(Apply(Apply(s, a), b), c)
    requires Enabled(Apply(Apply(Apply(s, a), b), c), d)
    ensures Legal(s, [a, b, c, d]) && Run(s, [a, b, c, d]) == Apply(Apply(Apply(Apply(s, a), b), c), d)
  {
    hide Enabled, Apply;
    RunThree(Apply(s, a), b, c, d);
    assert [a, b, c, d][1..] == [b, c, d];
  }
}
