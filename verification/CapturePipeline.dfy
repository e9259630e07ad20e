/** Capturing one response: network loop, bounded FIFO queue, and the single store worker, in every interleaving. */
module CapturePipeline {
  import opened Bytes
  import opened ContentModel

  const QUEUE_CAPACITY := 8
  const MAX_WRITES := 2

  /** Jobs the capture sends for its own content. */
  datatype Job = Append(batch: seq<byte>) | Finish | Release

  /** A queued job: one of this capture's, or somebody else's. */
  datatype Entry = Mine(job: Job) | Others

  datatype Done = Done(job: Job, ok: bool)

  /** Where the capture is suspended, or what it does next. */
  datatype Phase =
    | Receiving | Batching | Enqueuing(batch: seq<byte>) | AwaitingOldest
    | EnqueuingLast | Draining | SendingFinish | AwaitingFinish | Succeeded
    | SendingRelease | AwaitingRelease | Failed

  datatype Config = Config(id: string, batchBytes: nat, maxBytes: nat)

  /** `received` are the network chunks so far, `pending` the bytes not batched yet, `writes` the tickets of
      unacknowledged appends, `done` this capture's executed jobs in execution order. */
  datatype State = State(phase: Phase, received: seq<byte>, pending: seq<byte>, writes: seq<nat>,
                         queue: seq<Entry>, done: seq<Done>, view: View, alive: bool)

  datatype Step =
    | Chunk(bytes: seq<byte>) | NetworkEnd | NetworkError | Cancel
    | Cut | Enqueue | SendFails | Reply | ReplyLost
    | Work(ok: bool, applied: bool) | WorkOther(view: View) | OtherEnqueue | WorkerStops

  function MineOf(queue: seq<Entry>): seq<Job> {
    if queue == [] then []
    else (if queue[0].Mine? then [queue[0].job] else []) + MineOf(queue[1..])
  }

  function JobsOf(done: seq<Done>): seq<Job> {
    seq(|done|, i requires 0 <= i < |done| => done[i].job)
  }

  /** Every job this capture has queued, in order; a job's index is its ticket. */
  function Jobs(s: State): seq<Job> {
    JobsOf(s.done) + MineOf(s.queue)
  }

  function BytesIn(jobs: seq<Job>): seq<byte> {
    if jobs == [] then []
    else BytesIn(jobs[..|jobs| - 1]) + (var last := jobs[|jobs| - 1]; if last.Append? then last.batch else [])
  }

  /** Bytes of the appends the worker has acknowledged. */
  function Stored(done: seq<Done>): seq<byte> {
    if done == [] then []
    else
      var last := done[|done| - 1];
      Stored(done[..|done| - 1]) + if last.job.Append? && last.ok then last.job.batch else []
  }

  function AppendsIn(jobs: seq<Job>): nat {
    if jobs == [] then 0 else AppendsIn(jobs[..|jobs| - 1]) + (if jobs[|jobs| - 1].Append? then 1 else 0)
  }

  // -------------------------------------------------------------------- steps

  predicate Suspended(phase: Phase) {
    phase.Receiving? || phase.Enqueuing? || phase.AwaitingOldest? || phase.EnqueuingLast? || phase.Draining?
    || phase.SendingFinish? || phase.AwaitingFinish?
  }

  /** The job the capture is trying to queue. */
  function Sending(s: State): Option<Job> {
    match s.phase
    case Enqueuing(batch) => Some(Append(batch))
    case EnqueuingLast => Some(Append(s.pending))
    case SendingFinish => Some(Finish)
    case SendingRelease => Some(Release)
    case _ => None
  }

  function AfterSending(s: State): State
    requires Sending(s).Some?
  {
    var ticket := |Jobs(s)|;
    var queued := s.(queue := s.queue + [Mine(Sending(s).value)]);
    match s.phase
    case Enqueuing(_) =>
      var writes := s.writes + [ticket];
      queued.(writes := writes, phase := if |writes| >= MAX_WRITES then AwaitingOldest else Batching)
    case EnqueuingLast => queued.(writes := s.writes + [ticket], pending := [], phase := Draining)
    case SendingFinish => queued.(phase := AwaitingFinish)
    case _ => queued.(phase := AwaitingRelease)
  }

  /** The ticket whose reply the capture waits for. */
  function Awaited(s: State): Option<nat> {
    if s.phase.AwaitingOldest? || s.phase.Draining? then
      if s.writes == [] then None else Some(s.writes[0])
    else if s.phase.AwaitingFinish? || s.phase.AwaitingRelease? then
      if Jobs(s) == [] then None else Some(|Jobs(s)| - 1)
    else None
  }

  function AfterReply(s: State, ok: bool): State
    requires Awaited(s).Some?
  {
    if s.phase.AwaitingRelease? then s.(phase := Failed)
    else if !ok then s.(phase := SendingRelease)
    else if s.phase.AwaitingFinish? then s.(phase := Succeeded)
    else s.(writes := s.writes[1..], phase := if s.phase.AwaitingOldest? then Batching else Draining)
  }

  /** What the worker does to the capture's own content. `applied` tells a refused job from one that took effect
      although it is reported as failed. */
  function AfterJob(view: View, id: string, job: Job, ok: bool, applied: bool): Option<View> {
    match job
    case Append(batch) =>
      if !ok then Some(view) else if IsStaging(view, id) then Some(Appended(view, id, batch)) else None
    case Finish =>
      if ok && !IsStaging(view, id) then None else Some(if ok || applied then Finished(view, id) else view)
    case Release =>
      Some(if ok then ContentModel.Released(view, id) else view)
  }

  /** Others never touch this content before its reference is returned, except that it may expire. */
  predicate OthersMay(s: State, id: string, view: View) {
    id in view ==>
      && id in s.view && view[id].bytes == s.view[id].bytes
      && (view[id].state == s.view[id].state || (s.phase.Succeeded? && s.view[id].state == Ready && view[id].state == Adopted))
  }

  function Apply(c: Config, s: State, step: Step): Option<State> {
    match step
    case Chunk(bytes) =>
      if !s.phase.Receiving? then None
      else if |s.received| + |bytes| > c.maxBytes then Some(s.(phase := SendingRelease))
      else Some(s.(received := s.received + bytes, pending := s.pending + bytes, phase := Batching))
    case NetworkEnd =>
      if s.phase.Receiving? then Some(s.(phase := if s.pending == [] then Draining else EnqueuingLast)) else None
    case NetworkError =>
      if s.phase.Receiving? then Some(s.(phase := SendingRelease)) else None
    case Cancel =>
      if Suspended(s.phase) then Some(s.(phase := SendingRelease)) else None
    case Cut =>
      if s.phase.Batching? then
        if |s.pending| >= c.batchBytes then
          Some(s.(phase := Enqueuing(s.pending[..c.batchBytes]), pending := s.pending[c.batchBytes..]))
        else Some(s.(phase := Receiving))
      else if s.phase.Draining? && s.writes == [] then Some(s.(phase := SendingFinish))
      else None
    case Enqueue =>
      if s.alive && |s.queue| < QUEUE_CAPACITY && Sending(s).Some? then Some(AfterSending(s)) else None
    case SendFails =>
      if !s.alive && Sending(s).Some? then
        Some(s.(phase := if s.phase.SendingRelease? then Failed else SendingRelease))
      else None
    case Reply =>
      if Awaited(s).Some? && Awaited(s).value < |s.done| then Some(AfterReply(s, s.done[Awaited(s).value].ok)) else None
    case ReplyLost =>
      if !s.alive && Awaited(s).Some? && |s.done| <= Awaited(s).value then Some(AfterReply(s, false)) else None
    case Work(ok, applied) =>
      if s.alive && s.queue != [] && s.queue[0].Mine? then
        match AfterJob(s.view, c.id, s.queue[0].job, ok, applied)
        case None => None
        case Some(view) => Some(s.(view := view, queue := s.queue[1..], done := s.done + [Done(s.queue[0].job, ok)]))
      else None
    case WorkOther(view) =>
      if s.alive && s.queue != [] && s.queue[0].Others? && OthersMay(s, c.id, view) then
        Some(s.(view := view, queue := s.queue[1..]))
      else None
    case OtherEnqueue =>
      if s.alive && |s.queue| < QUEUE_CAPACITY then Some(s.(queue := s.queue + [Others])) else None
    case WorkerStops => Some(s.(alive := false))
  }

  /** Right after `create_staging`; others may already have jobs queued. */
  predicate Init(c: Config, s: State) {
    && c.batchBytes > 0
    && s.phase == Receiving && s.received == [] && s.pending == [] && s.writes == [] && s.done == [] && s.alive
    && |s.queue| <= QUEUE_CAPACITY && (forall e <- s.queue :: e.Others?)
    && c.id in s.view && s.view[c.id] == Content(Staging, [])
  }

  // --------------------------------------------------------------- invariants

  predicate Collecting(phase: Phase) {
    phase.Receiving? || phase.Batching? || phase.Enqueuing? || phase.AwaitingOldest?
    || phase.EnqueuingLast? || phase.Draining? || phase.SendingFinish?
  }

  predicate AllAppends(jobs: seq<Job>) {
    forall i :: 0 <= i < |jobs| ==> jobs[i].Append?
  }

  predicate AllOk(done: seq<Done>) {
    forall i :: 0 <= i < |done| ==> done[i].ok
  }

  /** Appends only; the last ones are the unawaited writes, all before them are acknowledged. */
  ghost predicate CollectingInv(s: State, jobs: seq<Job>) {
    var acked := |jobs| - |s.writes|;
    var transit := if s.phase.Enqueuing? then s.phase.batch else [];
    && AllAppends(jobs)
    && |s.writes| <= (if s.phase.AwaitingOldest? || s.phase.Draining? then 2 else if s.phase.SendingFinish? then 0 else 1)
    && (s.phase.AwaitingOldest? ==> s.writes != [])
    && 0 <= acked <= |s.done| && AllOk(s.done[..acked])
    && (forall i :: 0 <= i < |s.writes| ==> s.writes[i] == acked + i)
    && BytesIn(jobs) + transit + s.pending == s.received
    && (s.phase.Draining? || s.phase.SendingFinish? ==> s.pending == [])
  }

  /** The content is finished only behind acknowledged appends that hold all that was received. */
  ghost predicate FinishInv(done: seq<Done>, received: seq<byte>, jobs: seq<Job>) {
    forall i :: 0 <= i < |jobs| && jobs[i].Finish? ==>
      && i <= |done| && AllOk(done[..i]) && AllAppends(jobs[..i]) && BytesIn(jobs[..i]) == received
      && (forall j :: i < j < |jobs| ==> jobs[j].Release?)
  }

  ghost predicate ReleaseInv(phase: Phase, jobs: seq<Job>) {
    && (forall i :: 0 <= i < |jobs| && jobs[i].Release? ==> i == |jobs| - 1 && (phase.AwaitingRelease? || phase.Failed?))
    && (phase.AwaitingRelease? ==> jobs != [] && jobs[|jobs| - 1].Release?)
  }

  ghost predicate ViewInv(id: string, view: View, done: seq<Done>, phase: Phase) {
    && (id in view ==>
         && view[id].bytes == Stored(done)
         && (view[id].state != Staging ==> exists i :: 0 <= i < |done| && done[i].job.Finish?)
         && (view[id].state == Adopted ==> phase.Succeeded?))
    && (forall i :: 0 <= i < |done| && done[i] == Done(Finish, true) ==> id in view ==> view[id].state != Staging)
    && (forall i :: 0 <= i < |done| && done[i] == Done(Release, true) ==> id !in view)
  }

  /** The phase fits the jobs that have been queued and executed. */
  ghost predicate PhaseInv(s: State, jobs: seq<Job>) {
    && (Collecting(s.phase) ==> CollectingInv(s, jobs))
    && (s.phase.AwaitingFinish? || s.phase.Succeeded? ==> jobs != [] && jobs[|jobs| - 1].Finish?)
    && (s.phase.Succeeded? ==> s.done != [] && |s.done| == |jobs| && s.done[|s.done| - 1].ok)
  }

  ghost predicate Inv(c: Config, s: State) {
    && c.batchBytes > 0 && |s.queue| <= QUEUE_CAPACITY
    && AppendsIn(MineOf(s.queue)) <= MAX_WRITES
    && PhaseInv(s, Jobs(s))
    && FinishInv(s.done, s.received, Jobs(s))
    && ReleaseInv(s.phase, Jobs(s))
    && ViewInv(c.id, s.view, s.done, s.phase)
  }

  lemma {:induction false} MineOfConcat(a: seq<Entry>, b: seq<Entry>)
    ensures MineOf(a + b) == MineOf(a) + MineOf(b)
    decreases |a|
  {
    if a == [] {
      assert a + b == b && MineOf(a) == [];
    } else {
      assert (a + b)[0] == a[0] && (a + b)[1..] == a[1..] + b;
      MineOfConcat(a[1..], b);
    }
  }

  lemma {:induction false} NoMine(queue: seq<Entry>)
    requires forall e <- queue :: e.Others?
    ensures MineOf(queue) == []
  {
    if queue != [] {
      assert queue[0] in queue;
      NoMine(queue[1..]);
    }
  }

  lemma {:induction false} AppendsBehind(job: Job, jobs: seq<Job>)
    ensures AppendsIn([job] + jobs) == AppendsIn(jobs) + (if job.Append? then 1 else 0)
    decreases |jobs|
  {
    if jobs == [] {
      assert [job] + jobs == [job];
      assert [job][..0] == [];
    } else {
      var all := [job] + jobs;
      assert all[..|all| - 1] == [job] + jobs[..|jobs| - 1];
      AppendsBehind(job, jobs[..|jobs| - 1]);
    }
  }

  lemma {:induction false} AppendsAtMost(jobs: seq<Job>)
    ensures AppendsIn(jobs) <= |jobs|
  {
    if jobs != [] { AppendsAtMost(jobs[..|jobs| - 1]); }
  }

  lemma JobSnoc(jobs: seq<Job>, job: Job)
    ensures BytesIn(jobs + [job]) == BytesIn(jobs) + (if job.Append? then job.batch else [])
    ensures AppendsIn(jobs + [job]) == AppendsIn(jobs) + (if job.Append? then 1 else 0)
  {
    assert (jobs + [job])[..|jobs|] == jobs;
  }

  lemma QueuedJob(s: State, job: Job)
    ensures Jobs(s.(queue := s.queue + [Mine(job)])) == Jobs(s) + [job]
    ensures MineOf(s.queue + [Mine(job)]) == MineOf(s.queue) + [job]
    ensures Jobs(s.(queue := s.queue + [Others])) == Jobs(s) && MineOf(s.queue + [Others]) == MineOf(s.queue)
  {
    MineOfConcat(s.queue, [Mine(job)]);
    MineOfConcat(s.queue, [Others]);
    assert [Mine(job)][1..] == [] && [Others][1..] == [];
  }

  lemma WorkedJob(s: State, ok: bool)
    requires s.queue != [] && s.queue[0].Mine?
    ensures var s' := s.(queue := s.queue[1..], done := s.done + [Done(s.queue[0].job, ok)]);
            Jobs(s') == Jobs(s) && MineOf(s.queue) == [s.queue[0].job] + MineOf(s'.queue)
  {
  }

  lemma StoredSnoc(done: seq<Done>, d: Done)
    ensures Stored(done + [d]) == Stored(done) + (if d.job.Append? && d.ok then d.job.batch else [])
  {
    assert (done + [d])[..|done|] == done;
  }

  lemma AppendsOnly(done: seq<Done>, received: seq<byte>, phase: Phase, jobs: seq<Job>)
    requires AllAppends(jobs) && !phase.AwaitingRelease?
    ensures FinishInv(done, received, jobs) && ReleaseInv(phase, jobs)
  {
  }

  /** Network steps and cuts rearrange bytes inside the capture. */
  lemma CollectKeeps(c: Config, s: State, step: Step, s': State)
    requires Inv(c, s) && Apply(c, s, step) == Some(s')
    requires step.Chunk? || step.NetworkEnd? || step.NetworkError? || step.Cut?
    ensures Inv(c, s')
  {
    hide Jobs, MineOf, BytesIn, AppendsIn, ViewInv, FinishInv, ReleaseInv, CollectingInv;
    SameJobs(s, s');
    CollectShape(c, s, Jobs(s), step, s');
    AppendsOnly(s.done, s'.received, s'.phase, Jobs(s));
    ViewKeeps(c.id, s.view, s.done, s.phase, s'.phase);
  }

  lemma CollectShape(c: Config, s: State, jobs: seq<Job>, step: Step, s': State)
    requires Collecting(s.phase) && CollectingInv(s, jobs) && Apply(c, s, step) == Some(s')
    requires step.Chunk? || step.NetworkEnd? || step.NetworkError? || step.Cut?
    ensures AllAppends(jobs) && (Collecting(s'.phase) ==> CollectingInv(s', jobs))
  {
    hide Jobs, BytesIn, AllAppends, AllOk;
  }

  lemma SameJobs(s: State, s': State)
    requires s'.queue == s.queue && s'.done == s.done
    ensures Jobs(s') == Jobs(s)
  {
  }

  lemma ViewKeeps(id: string, view: View, done: seq<Done>, phase: Phase, phase': Phase)
    requires ViewInv(id, view, done, phase) && (phase.Succeeded? ==> phase'.Succeeded?)
    ensures ViewInv(id, view, done, phase')
  {
  }

  /** Giving up, and losing the worker. */
  lemma GiveUpKeeps(c: Config, s: State, step: Step, s': State)
    requires Inv(c, s) && Apply(c, s, step) == Some(s') && (step.Cancel? || step.SendFails? || step.WorkerStops?)
    ensures Inv(c, s')
  {
    hide Jobs, MineOf, BytesIn, AppendsIn, ViewInv, FinishInv;
    SameJobs(s, s');
    ViewKeeps(c.id, s.view, s.done, s.phase, s'.phase);
    ReleaseKeeps(s.phase, s'.phase, Jobs(s));
  }

  lemma ReleaseKeeps(phase: Phase, phase': Phase, jobs: seq<Job>)
    requires ReleaseInv(phase, jobs)
    requires phase == phase' || (!phase.AwaitingRelease? && !phase.Failed? && !phase'.AwaitingRelease?) || phase'.Failed?
    ensures ReleaseInv(phase', jobs)
  {
  }

  lemma ReplyKeeps(c: Config, s: State, ok: bool, s': State)
    requires Inv(c, s) && Awaited(s).Some? && s' == AfterReply(s, ok)
    requires ok ==> Awaited(s).value < |s.done| && s.done[Awaited(s).value].ok
    ensures Inv(c, s')
  {
    hide MineOf, BytesIn, AppendsIn, ViewInv, FinishInv;
    SameJobs(s, s');
    ViewKeeps(c.id, s.view, s.done, s.phase, s'.phase);
    ReleaseKeeps(s.phase, s'.phase, Jobs(s));
    assert |s.done| <= |Jobs(s)|;
    hide Jobs, ReleaseInv, CollectingInv;
    if Collecting(s.phase) && ok { ReplyCollects(s, Jobs(s), s'); }
  }

  lemma ReplyCollects(s: State, jobs: seq<Job>, s': State)
    requires Collecting(s.phase) && Awaited(s).Some? && s' == AfterReply(s, true) && CollectingInv(s, jobs)
    requires Awaited(s).value < |s.done| && s.done[Awaited(s).value].ok
    ensures CollectingInv(s', jobs)
  {
    hide Jobs, BytesIn, AllAppends;
    var acked := |jobs| - |s.writes|;
    assert s.writes[0] == acked + 0;
    AllOkSnoc(s.done, acked);
  }

  lemma AllOkSnoc(done: seq<Done>, n: nat)
    requires n < |done| && AllOk(done[..n]) && done[n].ok
    ensures AllOk(done[..n + 1])
  {
  }

  lemma EnqueueKeeps(c: Config, s: State, s': State)
    requires Inv(c, s) && Apply(c, s, Enqueue) == Some(s')
    ensures Inv(c, s')
  {
    hide MineOf, BytesIn, AppendsIn, ViewInv, FinishInv, ReleaseInv, CollectingInv;
    var job := Sending(s).value;
    var jobs := Jobs(s);
    QueuedJob(s, job);
    assert Jobs(s') == jobs + [job];
    assert |jobs| == |s.done| + |MineOf(s.queue)|;
    JobSnoc(jobs, job);
    JobSnoc(MineOf(s.queue), job);
    AppendsAtMost(MineOf(s.queue));
    hide Jobs;
    ViewKeeps(c.id, s.view, s.done, s.phase, s'.phase);
    EnqueueShape(s, jobs, s');
  }

  lemma EnqueueShape(s: State, jobs: seq<Job>, s': State)
    requires Sending(s).Some? && |Jobs(s)| == |jobs| && s' == AfterSending(s) && |s.done| <= |jobs|
    requires PhaseInv(s, jobs) && FinishInv(s.done, s.received, jobs) && ReleaseInv(s.phase, jobs)
    ensures var job := Sending(s).value;
            PhaseInv(s', jobs + [job]) && FinishInv(s'.done, s'.received, jobs + [job]) && ReleaseInv(s'.phase, jobs + [job])
    ensures Sending(s).value.Append? ==> |jobs| - |s.done| <= 1
  {
    hide Jobs, CollectingInv, FinishInv, ReleaseInv;
    match s.phase
    case SendingFinish => FinishShape(s, jobs, s');
    case SendingRelease => ReleaseShape(s, jobs);
    case _ =>
      AppendShape(s, jobs, s');
  }

  lemma AppendShape(s: State, jobs: seq<Job>, s': State)
    requires (s.phase.Enqueuing? || s.phase.EnqueuingLast?) && |Jobs(s)| == |jobs| && s' == AfterSending(s)
    requires CollectingInv(s, jobs) && |s.done| <= |jobs|
    ensures var more := jobs + [Sending(s).value];
            CollectingInv(s', more) && FinishInv(s'.done, s'.received, more) && ReleaseInv(s'.phase, more)
    ensures |jobs| - |s.done| <= 1
  {
    hide Jobs, FinishInv, ReleaseInv, BytesIn, AllOk;
    AppendCollects(s, jobs, s');
    AppendsOnly(s'.done, s'.received, s'.phase, jobs + [Sending(s).value]);
  }

  lemma AppendCollects(s: State, jobs: seq<Job>, s': State)
    requires (s.phase.Enqueuing? || s.phase.EnqueuingLast?) && |Jobs(s)| == |jobs| && s' == AfterSending(s)
    requires CollectingInv(s, jobs)
    ensures CollectingInv(s', jobs + [Sending(s).value])
  {
    hide Jobs, BytesIn, AllOk;
    var more := jobs + [Sending(s).value];
    JobSnoc(jobs, Sending(s).value);
    assert |more| - |s'.writes| == |jobs| - |s.writes|;
    assert AllAppends(more);
    hide AllAppends;
  }

  lemma FinishShape(s: State, jobs: seq<Job>, s': State)
    requires s.phase.SendingFinish? && CollectingInv(s, jobs) && |s.done| <= |jobs| && s' == AfterSending(s)
    ensures FinishInv(s'.done, s'.received, jobs + [Finish]) && ReleaseInv(s'.phase, jobs + [Finish])
  {
    hide Jobs, BytesIn, AllOk;
    assert (jobs + [Finish])[..|jobs|] == jobs;
    assert s.done[..|jobs|] == s.done;
    assert BytesIn(jobs) == s.received;
    forall i | 0 <= i < |jobs| ensures (jobs + [Finish])[i].Append? {
      assert (jobs + [Finish])[i] == jobs[i];
    }
  }

  lemma ReleaseShape(s: State, jobs: seq<Job>)
    requires s.phase.SendingRelease? && |s.done| <= |jobs|
    requires FinishInv(s.done, s.received, jobs) && ReleaseInv(s.phase, jobs)
    ensures FinishInv(s.done, s.received, jobs + [Release]) && ReleaseInv(AwaitingRelease, jobs + [Release])
  {
    hide AllAppends, AllOk, BytesIn;
    var more := jobs + [Release];
    assert forall i :: 0 <= i <= |jobs| ==> more[..i] == jobs[..i];
  }

  lemma WorkKeeps(c: Config, s: State, ok: bool, applied: bool, s': State)
    requires Inv(c, s) && Apply(c, s, Work(ok, applied)) == Some(s')
    ensures Inv(c, s')
  {
    hide MineOf, BytesIn, AppendsIn, Stored, CollectingInv, FinishInv, ReleaseInv, PhaseInv, ViewInv;
    var job := s.queue[0].job;
    WorkedJob(s, ok);
    AppendsBehind(job, MineOf(s'.queue));
    var jobs := Jobs(s);
    assert Jobs(s') == jobs && |s.done| < |jobs| && jobs[|s.done|] == job && |s'.done| == |s.done| + 1;
    forall i | 0 <= i < |s.done| ensures jobs[i] == s.done[i].job {}
    hide Jobs;
    WorkShape(s, jobs, s', Done(job, ok));
    WorkView(c.id, s, jobs, job, ok, applied, s'.view);
  }

  lemma WorkShape(s: State, jobs: seq<Job>, s': State, d: Done)
    requires PhaseInv(s, jobs) && FinishInv(s.done, s.received, jobs) && |s.done| < |jobs|
    requires s'.phase == s.phase && s'.received == s.received && s'.pending == s.pending && s'.writes == s.writes
    requires s'.done == s.done + [d]
    ensures PhaseInv(s', jobs) && FinishInv(s'.done, s'.received, jobs)
  {
    hide BytesIn, AllAppends, AllOk;
    assert forall i :: 0 <= i <= |s.done| ==> s'.done[..i] == s.done[..i];
  }

  lemma WorkView(id: string, s: State, jobs: seq<Job>, job: Job, ok: bool, applied: bool, view: View)
    requires ViewInv(id, s.view, s.done, s.phase) && ReleaseInv(s.phase, jobs) && PhaseInv(s, jobs)
    requires |s.done| < |jobs| && jobs[|s.done|] == job && (forall i :: 0 <= i < |s.done| ==> jobs[i] == s.done[i].job)
    requires AfterJob(s.view, id, job, ok, applied) == Some(view)
    ensures ViewInv(id, view, s.done + [Done(job, ok)], s.phase)
  {
    hide CollectingInv;
    var done := s.done + [Done(job, ok)];
    StoredSnoc(s.done, Done(job, ok));
    hide Stored;
    assert forall i :: 0 <= i < |s.done| ==> done[i] == s.done[i];
    assert done[|s.done|] == Done(job, ok);
    forall i | 0 <= i < |done| && done[i] == Done(Release, true) ensures id !in view {
      assert jobs[i].Release? && i == |s.done|;
    }
    if id in view && view[id].state != Staging {
      if id in s.view && s.view[id].state != Staging {
        var i :| 0 <= i < |s.done| && s.done[i].job.Finish?;
        assert done[i].job.Finish?;
      } else {
        assert done[|s.done|].job.Finish?;
      }
    }
  }

  lemma OthersKeep(c: Config, s: State, step: Step, s': State)
    requires Inv(c, s) && Apply(c, s, step) == Some(s') && (step.WorkOther? || step.OtherEnqueue?)
    ensures Inv(c, s')
  {
    hide AppendsIn, FinishInv, ReleaseInv, CollectingInv, ViewInv;
    OthersKeepJobs(c, s, step, s');
    hide MineOf, Jobs;
    OthersKeepView(c, s, step, s');
    SameCollecting(s, s', Jobs(s));
  }

  lemma OthersKeepJobs(c: Config, s: State, step: Step, s': State)
    requires Apply(c, s, step) == Some(s') && (step.WorkOther? || step.OtherEnqueue?)
    ensures MineOf(s'.queue) == MineOf(s.queue) && Jobs(s') == Jobs(s)
  {
    QueuedJob(s, Finish);
  }

  lemma OthersKeepView(c: Config, s: State, step: Step, s': State)
    requires Apply(c, s, step) == Some(s') && (step.WorkOther? || step.OtherEnqueue?)
    requires ViewInv(c.id, s.view, s.done, s.phase)
    ensures ViewInv(c.id, s'.view, s'.done, s'.phase)
  {
    hide Stored;
  }

  lemma SameCollecting(s: State, s': State, jobs: seq<Job>)
    requires s' == s.(queue := s'.queue, view := s'.view)
    ensures CollectingInv(s', jobs) == CollectingInv(s, jobs)
  {
    hide BytesIn, AllOk, AllAppends;
  }

  lemma StepKeeps(c: Config, s: State, step: Step, s': State)
    requires Inv(c, s) && Apply(c, s, step) == Some(s')
    ensures Inv(c, s')
  {
    hide Inv, Jobs;
    match step
    case Enqueue => EnqueueKeeps(c, s, s');
    case Work(ok, applied) => WorkKeeps(c, s, ok, applied, s');
    case WorkOther(_) => OthersKeep(c, s, step, s');
    case OtherEnqueue => OthersKeep(c, s, step, s');
    case Reply => ReplyKeeps(c, s, s.done[Awaited(s).value].ok, s');
    case ReplyLost => ReplyKeeps(c, s, false, s');
    case Cancel => GiveUpKeeps(c, s, step, s');
    case SendFails => GiveUpKeeps(c, s, step, s');
    case WorkerStops => GiveUpKeeps(c, s, step, s');
    case _ => CollectKeeps(c, s, step, s');
  }

  /** A capture fails only behind its release: the worker has executed it, unless it has stopped. */
  ghost predicate FailsReleased(s: State) {
    s.phase.Failed? && s.alive ==> exists d <- s.done :: d.job.Release?
  }

  lemma LastJobDone(s: State)
    requires Jobs(s) != [] && |s.done| == |Jobs(s)|
    ensures s.done[|s.done| - 1].job == Jobs(s)[|Jobs(s)| - 1]
  {
    hide MineOf;
  }

  lemma StepFailsReleased(c: Config, s: State, step: Step, s': State)
    requires Inv(c, s) && FailsReleased(s) && Apply(c, s, step) == Some(s')
    ensures FailsReleased(s')
  {
    hide Jobs, MineOf, BytesIn, AppendsIn, PhaseInv, FinishInv, ViewInv, AfterJob, OthersMay, Stored;
    if s'.phase.Failed? && s'.alive {
      if s.phase.Failed? {
        var d :| d in s.done && d.job.Release?;
        assert d in s'.done;
      } else {
        ReleaseReplied(s, step);
      }
    }
  }

  lemma ReleaseReplied(s: State, step: Step)
    requires s.phase.AwaitingRelease? && ReleaseInv(s.phase, Jobs(s))
    requires Awaited(s).Some? && Awaited(s).value < |s.done|
    ensures exists d <- s.done :: d.job.Release?
  {
    hide MineOf;
    LastJobDone(s);
    assert s.done[|s.done| - 1] in s.done;
  }

  lemma InitInv(c: Config, s: State)
    requires Init(c, s)
    ensures Inv(c, s)
  {
    InitJobs(s);
    assert AppendsIn([]) == 0;
    hide Jobs, MineOf, AppendsIn, CollectingInv, ViewInv, FinishInv, ReleaseInv;
    InitCollects(c, s);
    InitView(c, s);
    AppendsOnly(s.done, s.received, s.phase, []);
  }

  lemma InitJobs(s: State)
    requires s.done == [] && forall e <- s.queue :: e.Others?
    ensures Jobs(s) == [] && MineOf(s.queue) == []
  {
    NoMine(s.queue);
  }

  lemma InitCollects(c: Config, s: State)
    requires Init(c, s)
    ensures CollectingInv(s, [])
  {
    assert s.done[..0] == [] && BytesIn([]) == [];
  }

  lemma InitView(c: Config, s: State)
    requires Init(c, s)
    ensures ViewInv(c.id, s.view, s.done, s.phase)
  {
  }

  // ---------------------------------------------------------------- whole runs

  function Run(c: Config, s: State, steps: seq<Step>): Option<State>
    decreases |steps|
  {
    if steps == [] then Some(s)
    else
      match Apply(c, s, steps[0])
      case None => None
      case Some(next) => Run(c, next, steps[1..])
  }

  lemma {:induction false} RunKeeps(c: Config, s: State, steps: seq<Step>)
    requires Inv(c, s) && FailsReleased(s) && Run(c, s, steps).Some?
    ensures Inv(c, Run(c, s, steps).value) && FailsReleased(Run(c, s, steps).value)
    decreases |steps|
  {
    hide Inv, Apply, FailsReleased;
    if steps != [] {
      var next := Apply(c, s, steps[0]).value;
      StepKeeps(c, s, steps[0], next);
      StepFailsReleased(c, s, steps[0], next);
      RunKeeps(c, next, steps[1..]);
    }
  }

  lemma {:induction false} StoredAppends(done: seq<Done>)
    requires AllOk(done) && AllAppends(JobsOf(done))
    ensures Stored(done) == BytesIn(JobsOf(done))
  {
    if done != [] {
      var m := |done| - 1;
      assert JobsOf(done[..m]) == JobsOf(done)[..m];
      assert JobsOf(done)[m] == done[m].job;
      StoredAppends(done[..m]);
    }
  }

  lemma StoredSkips(done: seq<Done>)
    requires done != [] && !done[|done| - 1].job.Append?
    ensures Stored(done) == Stored(done[..|done| - 1])
  {
  }

  lemma {:induction false} StoredIsAll(done: seq<Done>, n: nat)
    requires n <= |done| && AllOk(done[..n]) && AllAppends(JobsOf(done)[..n])
    requires forall j :: n <= j < |done| ==> !done[j].job.Append?
    ensures Stored(done) == BytesIn(JobsOf(done)[..n])
    decreases |done|
  {
    hide Stored, BytesIn, AllOk, AllAppends;
    if n == |done| {
      assert done[..n] == done && JobsOf(done)[..n] == JobsOf(done);
      StoredAppends(done);
    } else {
      var front := done[..|done| - 1];
      assert front[..n] == done[..n] && JobsOf(front)[..n] == JobsOf(done)[..n];
      StoredSkips(done);
      StoredIsAll(front, n);
    }
  }

  /** Whether the worker executed this capture's release. */
  predicate Released(s: State) {
    exists d <- s.done :: d == Done(Release, true)
  }

  // ------------------------------------------------- what a run was given

  /** The bytes the network gave in these steps. */
  function Given(steps: seq<Step>): seq<byte> {
    if steps == [] then []
    else Given(steps[..|steps| - 1]) + GivenBy(steps[|steps| - 1])
  }

  function GivenBy(step: Step): seq<byte> {
    if step.Chunk? then step.bytes else []
  }

  /** What a capture may fail for. */
  ghost predicate Cause(c: Config, steps: seq<Step>) {
    NetworkError in steps || Cancel in steps || WorkerStops in steps || FailedWork(steps) || |Given(steps)| > c.maxBytes
  }

  ghost predicate FailedWork(steps: seq<Step>) {
    exists step <- steps :: step.Work? && !step.ok
  }

  predicate GivenUp(phase: Phase) {
    phase.SendingRelease? || phase.AwaitingRelease? || phase.Failed?
  }

  predicate Ended(phase: Phase) {
    phase.EnqueuingLast? || phase.Draining? || phase.SendingFinish? || phase.AwaitingFinish? || phase.Succeeded?
  }

  /** Full batches, and behind them at most one that is not. */
  predicate Batched(jobs: seq<Job>, batchBytes: nat, open: bool) {
    forall i :: 0 <= i < |jobs| && jobs[i].Append? ==>
      && 0 < |jobs[i].batch| <= batchBytes
      && (|jobs[i].batch| < batchBytes ==> !open && forall j :: i < j < |jobs| ==> !jobs[j].Append?)
  }

  /** How the state of a capture hangs together with the steps that led to it. */
  ghost predicate Traced(c: Config, s: State, steps: seq<Step>) {
    && TracedBytes(c, s, Jobs(s), steps)
    && TracedFailure(c, s, steps)
    && TracedBatches(c, s, Jobs(s))
  }

  ghost predicate TracedBytes(c: Config, s: State, jobs: seq<Job>, steps: seq<Step>) {
    && |s.received| <= c.maxBytes
    && BytesIn(jobs) <= s.received
    && (s.received == Given(steps) || (GivenUp(s.phase) && Finish !in jobs))
    && (Ended(s.phase) || Finish in jobs ==> NetworkEnd in steps)
  }

  ghost predicate TracedFailure(c: Config, s: State, steps: seq<Step>) {
    && (!s.alive ==> WorkerStops in steps)
    && (forall i :: 0 <= i < |s.done| && !s.done[i].ok ==> FailedWork(steps))
    && (GivenUp(s.phase) ==> Cause(c, steps))
  }

  ghost predicate TracedBatches(c: Config, s: State, jobs: seq<Job>) {
    && Batched(jobs, c.batchBytes, Collecting(s.phase) && !s.phase.Draining? && !s.phase.SendingFinish?)
    && (s.phase.Enqueuing? ==> |s.phase.batch| == c.batchBytes)
    && (s.phase.Receiving? || s.phase.EnqueuingLast? ==> |s.pending| < c.batchBytes)
    && (s.phase.EnqueuingLast? ==> s.pending != [])
  }
  lemma JobsAfter(c: Config, s: State, step: Step, s': State)
    requires Apply(c, s, step) == Some(s')
    ensures !step.Enqueue? ==> Jobs(s') == Jobs(s)
    ensures step.Enqueue? ==> Sending(s).Some? && Jobs(s') == Jobs(s) + [Sending(s).value]
  {
    hide AfterJob, OthersMay;
    match step
    case Enqueue =>
      QueuedJob(s, Sending(s).value);
      SameJobs(s.(queue := s.queue + [Mine(Sending(s).value)]), s');
    case Work(ok, applied) =>
      WorkedJob(s, ok);
      SameJobs(s.(queue := s.queue[1..], done := s.done + [Done(s.queue[0].job, ok)]), s');
    case WorkOther(_) => OthersKeepJobs(c, s, step, s');
    case OtherEnqueue => OthersKeepJobs(c, s, step, s');
    case _ => SameJobs(s, s');
  }

  lemma StepTracesFailure(c: Config, s: State, steps: seq<Step>, step: Step, s': State)
    requires Traced(c, s, steps) && Apply(c, s, step) == Some(s')
    ensures TracedFailure(c, s', steps + [step])
  {
    hide Jobs, TracedBatches, AfterJob, OthersMay, FailedWork, Given;
    MoreSteps(c, steps, step);
    if step.Work? && !step.ok {
      FailsWork(steps, step);
    }
  }

  lemma FailsWork(steps: seq<Step>, step: Step)
    requires step.Work? && !step.ok
    ensures FailedWork(steps + [step])
  {
    assert (steps + [step])[|steps|] == step;
  }

  lemma MoreSteps(c: Config, steps: seq<Step>, step: Step)
    ensures Given(steps + [step]) == Given(steps) + GivenBy(step)
    ensures Cause(c, steps) ==> Cause(c, steps + [step])
    ensures FailedWork(steps) ==> FailedWork(steps + [step])
    ensures forall other <- steps :: other in steps + [step]
    ensures step in steps + [step]
  {
    assert (steps + [step])[..|steps|] == steps;
    assert (steps + [step])[|steps|] == step;
    if FailedWork(steps) {
      var work :| work in steps && work.Work? && !work.ok;
      assert work in steps + [step];
    }
  }

  lemma StepTracesBytes(c: Config, s: State, steps: seq<Step>, step: Step, s': State)
    requires Inv(c, s) && Traced(c, s, steps) && Apply(c, s, step) == Some(s')
    ensures TracedBytes(c, s', Jobs(s'), steps + [step])
  {
    hide TracedBatches, TracedFailure, FinishInv, ReleaseInv, ViewInv, Apply, TracedBytes, CollectingInv;
    JobsAfter(c, s, step, s');
    hide Jobs, MineOf;
    if step.Enqueue? {
      EnqueueTracesBytes(c, s, steps, Jobs(s), s');
    } else {
      OtherTracesBytes(c, s, steps, Jobs(s), step, s');
    }
  }

  lemma OtherTracesBytes(c: Config, s: State, steps: seq<Step>, jobs: seq<Job>, step: Step, s': State)
    requires PhaseInv(s, jobs) && TracedBytes(c, s, jobs, steps) && Apply(c, s, step) == Some(s') && !step.Enqueue?
    ensures TracedBytes(c, s', jobs, steps + [step])
  {
    hide AfterJob, OthersMay, Given, Cause, FailedWork, Jobs, CollectingInv;
    MoreSteps(c, steps, step);
    if Collecting(s.phase) {
      NoFinish(s, jobs);
    }
  }

  lemma NoFinish(s: State, jobs: seq<Job>)
    requires CollectingInv(s, jobs)
    ensures Finish !in jobs
  {
    hide BytesIn, AllOk;
  }

  lemma EnqueueTracesBytes(c: Config, s: State, steps: seq<Step>, jobs: seq<Job>, s': State)
    requires PhaseInv(s, jobs) && TracedBytes(c, s, jobs, steps) && Apply(c, s, Enqueue) == Some(s')
    ensures TracedBytes(c, s', jobs + [Sending(s).value], steps + [Enqueue])
  {
    hide Jobs, Given, AllOk, AllAppends, Cause, FailedWork;
    MoreSteps(c, steps, Enqueue);
    JobSnoc(jobs, Sending(s).value);
  }

  lemma StepTracesBatches(c: Config, s: State, step: Step, s': State)
    requires Inv(c, s) && TracedBatches(c, s, Jobs(s)) && Apply(c, s, step) == Some(s')
    ensures TracedBatches(c, s', Jobs(s'))
  {
    hide FinishInv, ReleaseInv, ViewInv, PhaseInv, TracedBatches, Apply, MineOf;
    JobsAfter(c, s, step, s');
    hide Jobs;
    if step.Enqueue? {
      EnqueueTracesBatches(c, s, Jobs(s), s');
    } else {
      OtherTracesBatches(c, s, Jobs(s), step, s');
    }
  }

  lemma EnqueueTracesBatches(c: Config, s: State, jobs: seq<Job>, s': State)
    requires c.batchBytes > 0 && TracedBatches(c, s, jobs) && Apply(c, s, Enqueue) == Some(s')
    ensures TracedBatches(c, s', jobs + [Sending(s).value])
  {
    hide Jobs;
  }

  lemma OtherTracesBatches(c: Config, s: State, jobs: seq<Job>, step: Step, s': State)
    requires TracedBatches(c, s, jobs) && Apply(c, s, step) == Some(s') && !step.Enqueue?
    ensures TracedBatches(c, s', jobs)
  {
    hide Jobs, AfterJob, OthersMay, Batched;
    BatchedClosed(jobs, c.batchBytes, Collecting(s.phase) && !s.phase.Draining? && !s.phase.SendingFinish?);
  }

  lemma StepTraces(c: Config, s: State, steps: seq<Step>, step: Step, s': State)
    requires Inv(c, s) && Traced(c, s, steps) && Apply(c, s, step) == Some(s')
    ensures Traced(c, s', steps + [step])
  {
    hide Inv, Apply, TracedBytes, TracedFailure, TracedBatches;
    StepTracesBytes(c, s, steps, step, s');
    StepTracesFailure(c, s, steps, step, s');
    StepTracesBatches(c, s, step, s');
  }

  lemma InitTraced(c: Config, s: State)
    requires Init(c, s)
    ensures Traced(c, s, [])
  {
    InitJobs(s);
    hide Jobs, MineOf;
  }

  lemma {:induction false} RunTraces(c: Config, s: State, steps: seq<Step>, before: seq<Step>)
    requires Inv(c, s) && Traced(c, s, before) && Run(c, s, steps).Some?
    ensures Traced(c, Run(c, s, steps).value, before + steps)
    decreases |steps|
  {
    hide Inv, Apply, Traced;
    if steps == [] {
      assert before + steps == before;
    } else {
      var next := Apply(c, s, steps[0]).value;
      StepKeeps(c, s, steps[0], next);
      StepTraces(c, s, before, steps[0], next);
      RunTraces(c, next, steps[1..], before + [steps[0]]);
      assert before + [steps[0]] + steps[1..] == before + steps;
    }
  }

  /** What a finished capture holds, and why a failed one failed, in terms of the steps alone. */
  ghost predicate Faithful(c: Config, s: State, steps: seq<Step>) {
    && (c.id in s.view ==> |s.view[c.id].bytes| <= c.maxBytes)
    && (c.id in s.view && s.view[c.id].state != Staging ==> s.view[c.id].bytes == Given(steps) && NetworkEnd in steps)
    && (s.phase.Succeeded? ==> |Given(steps)| <= c.maxBytes && NetworkEnd in steps)
    && (GivenUp(s.phase) ==> Cause(c, steps))
    && Batched(Jobs(s), c.batchBytes, false)
  }

  /** In every interleaving, with failing writes, a stopping worker and cancellation at any await: at most two
      writes are in flight, in full batches but for a last one; stored bytes stay within the limit; a content that is
      no longer staging holds exactly the bytes of the network's chunks, of which the last has come, all of its writes
      acknowledged; success means just that, with no release queued; a capture gives up only for a cause among its
      steps; a failed one whose worker lives has had its release executed and leaves no row unless that release itself
      failed; and once a release has taken effect no row is left nor any job that could bring one back. */
  lemma CaptureSafe(c: Config, init: State, steps: seq<Step>)
    requires Init(c, init) && Run(c, init, steps).Some?
    ensures var s := Run(c, init, steps).value;
            && Faithful(c, s, steps)
            && AppendsIn(MineOf(s.queue)) <= MAX_WRITES
            && (c.id in s.view && s.view[c.id].state != Staging ==>
                 forall t :: 0 <= t < |Jobs(s)| && Jobs(s)[t].Append? ==> t < |s.done| && s.done[t].ok)
            && (s.phase.Succeeded? ==>
                 Release !in Jobs(s) && (c.id in s.view ==> s.view[c.id].state != Staging))
            && (s.phase.Failed? && s.alive ==>
                 && (exists d <- s.done :: d.job.Release?)
                 && (c.id in s.view ==> Done(Release, false) in s.done))
            && (Released(s) ==> c.id !in s.view && MineOf(s.queue) == [])
  {
    var s := Run(c, init, steps).value;
    InitInv(c, init);
    RunKeeps(c, init, steps);
    InitTraced(c, init);
    RunTraces(c, init, steps, []);
    assert [] + steps == steps;
    hide Run, MineOf, BytesIn, AppendsIn, Stored, Traced, Faithful;
    RunIsFaithful(c, s, steps);
    if c.id in s.view && s.view[c.id].state != Staging {
      ReadyHoldsAll(c, s);
    }
    if Released(s) {
      var i :| 0 <= i < |s.done| && s.done[i] == Done(Release, true);
      assert Jobs(s)[i].Release?;
    }
    if s.phase.Failed? && s.alive {
      FailedLeavesNothing(c, s);
    }
    if s.phase.Succeeded? {
      SuccessIsFinal(c, s);
      var last := |s.done| - 1;
      assert Jobs(s)[last] == s.done[last].job;
    }
  }

  lemma RunIsFaithful(c: Config, s: State, steps: seq<Step>)
    requires Inv(c, s) && Traced(c, s, steps)
    ensures Faithful(c, s, steps)
  {
    hide MineOf, BytesIn, AppendsIn, Stored, FinishInv, ReleaseInv, CollectingInv, Cause, Given;
    var jobs := Jobs(s);
    if c.id in s.view {
      StoredFits(s.done, jobs);
      if s.view[c.id].state != Staging {
        ReadyHoldsAll(c, s);
        var i :| 0 <= i < |s.done| && s.done[i].job.Finish?;
        assert jobs[i] == Finish;
      }
    }
    BatchedClosed(jobs, c.batchBytes, Collecting(s.phase) && !s.phase.Draining? && !s.phase.SendingFinish?);
  }

  lemma BatchedClosed(jobs: seq<Job>, batchBytes: nat, open: bool)
    requires Batched(jobs, batchBytes, open)
    ensures Batched(jobs, batchBytes, false)
  {
  }

  /** Fewer bytes are stored than were queued. */
  lemma {:induction false} StoredFits(done: seq<Done>, jobs: seq<Job>)
    requires |done| <= |jobs| && forall i :: 0 <= i < |done| ==> jobs[i] == done[i].job
    ensures |Stored(done)| <= |BytesIn(jobs)|
    decreases |jobs|
  {
    if jobs != [] {
      var m := |jobs| - 1;
      if |done| == |jobs| {
        assert done[m].job == jobs[m];
        StoredFits(done[..m], jobs[..m]);
      } else {
        StoredFits(done, jobs[..m]);
      }
    }
  }

  lemma FailedLeavesNothing(c: Config, s: State)
    requires Inv(c, s) && FailsReleased(s) && s.phase.Failed? && s.alive
    ensures exists d <- s.done :: d.job.Release?
    ensures c.id in s.view ==> Done(Release, false) in s.done
  {
    hide Jobs, MineOf, BytesIn, AppendsIn, Stored, PhaseInv, ReleaseInv, FinishInv;
    var d :| d in s.done && d.job.Release?;
    var i :| 0 <= i < |s.done| && s.done[i] == d;
    assert d == Done(Release, d.ok);
  }

  /** A capture is never stuck: in every run it has ended, or waits for the network, or a step of its own, of the queue
      or of the worker can be taken. */
  lemma NeverStuck(c: Config, init: State, steps: seq<Step>)
    requires Init(c, init) && Run(c, init, steps).Some?
    ensures
      var s := Run(c, init, steps).value;
      || s.phase.Succeeded? || s.phase.Failed? || s.phase.Receiving?
      || exists step: Step :: Inner(step) && Apply(c, s, step).Some?
  {
    var s := Run(c, init, steps).value;
    InitInv(c, init);
    RunKeeps(c, init, steps);
    hide Run;
    if !s.phase.Succeeded? && !s.phase.Failed? && !s.phase.Receiving? {
      Moves(c, s);
    }
  }

  /** Undisturbed, a capture of one chunk does succeed, and its content is ready with that chunk's bytes. */
  lemma OneChunkSucceeds(c: Config, init: State, bytes: seq<byte>) returns (steps: seq<Step>)
    requires Init(c, init) && init.queue == [] && 0 < |bytes| < c.batchBytes && |bytes| <= c.maxBytes
    ensures Run(c, init, steps).Some?
    ensures Run(c, init, steps).value.phase.Succeeded? && Given(steps) == bytes
    ensures c.id in Run(c, init, steps).value.view && Run(c, init, steps).value.view[c.id] == Content(Ready, bytes)
  {
    var written, s1 := OneChunkIsWritten(c, init, bytes);
    var finished := [Cut, Enqueue, Work(true, true), Reply];
    var s2 := FinishIsDone(c, s1);
    steps := written + finished;
    RunAppend(c, init, written, finished);
    hide Run, Apply, Init;
    assert Given(steps) == bytes by {
      GivenAppend(written, finished);
      GivenFour(finished);
    }
  }

  lemma {:induction false} RunAppend(c: Config, s: State, a: seq<Step>, b: seq<Step>)
    requires Run(c, s, a).Some?
    ensures Run(c, s, a + b) == Run(c, Run(c, s, a).value, b)
    decreases |a|
  {
    hide Apply;
    if a == [] {
      assert a + b == b;
    } else {
      assert (a + b)[1..] == a[1..] + b;
      RunAppend(c, Apply(c, s, a[0]).value, a[1..], b);
    }
  }

  lemma {:induction false} GivenAppend(a: seq<Step>, b: seq<Step>)
    ensures Given(a + b) == Given(a) + Given(b)
    decreases |b|
  {
    hide GivenBy;
    if b == [] {
      assert a + b == a;
    } else {
      var front, last := b[..|b| - 1], b[|b| - 1];
      GivenAppend(a, front);
      assert (a + b)[..|a + b| - 1] == a + front && (a + b)[|a + b| - 1] == last;
    }
  }

  lemma GivenFour(steps: seq<Step>)
    requires forall step <- steps :: !step.Chunk?
    ensures Given(steps) == []
  {
    if steps != [] {
      assert steps[|steps| - 1] in steps;
      GivenFour(steps[..|steps| - 1]);
    }
  }

  lemma RunOne(c: Config, s: State, step: Step, rest: seq<Step>)
    requires Apply(c, s, step).Some?
    ensures Run(c, s, [step] + rest) == Run(c, Apply(c, s, step).value, rest)
  {
    assert ([step] + rest)[1..] == rest;
  }

  lemma RunThree(c: Config, s: State, a: Step, s1: State, b: Step, s2: State, d: Step, s3: State)
    requires Apply(c, s, a) == Some(s1) && Apply(c, s1, b) == Some(s2) && Apply(c, s2, d) == Some(s3)
    ensures Run(c, s, [a, b, d]) == Some(s3)
  {
    hide Apply;
    assert [a, b, d] == [a] + ([b] + ([d] + []));
    RunOne(c, s, a, [b] + ([d] + []));
    RunOne(c, s1, b, [d] + []);
    RunOne(c, s2, d, []);
  }

  lemma OneChunkIsWritten(c: Config, init: State, bytes: seq<byte>) returns (steps: seq<Step>, s: State)
    requires Init(c, init) && init.queue == [] && 0 < |bytes| < c.batchBytes && |bytes| <= c.maxBytes
    ensures Run(c, init, steps) == Some(s) && Given(steps) == bytes
    ensures s.phase == Draining && s.writes == [] && s.queue == [] && s.alive && |s.done| == 1 && s.done[0].ok
    ensures c.id in s.view && s.view[c.id] == Content(Staging, bytes)
  {
    var taken := ChunkIsTaken(c, init, bytes);
    s := ChunkIsStored(c, taken);
    var first, second := [Chunk(bytes), Cut, NetworkEnd], [Enqueue, Work(true, true), Reply];
    steps := first + second;
    RunAppend(c, init, first, second);
    hide Run, Apply, Init;
    assert [] + bytes == bytes;
    GivenAppend(first, second);
    GivenFour(second);
    assert first == [Chunk(bytes)] + [Cut, NetworkEnd];
    GivenAppend([Chunk(bytes)], [Cut, NetworkEnd]);
    GivenFour([Cut, NetworkEnd]);
    assert [Chunk(bytes)][..0] == [] && Given([]) == [];
  }

  lemma ChunkIsTaken(c: Config, init: State, bytes: seq<byte>) returns (s: State)
    requires Init(c, init) && init.queue == [] && 0 < |bytes| < c.batchBytes && |bytes| <= c.maxBytes
    ensures Run(c, init, [Chunk(bytes), Cut, NetworkEnd]) == Some(s)
    ensures s == init.(phase := EnqueuingLast, received := bytes, pending := bytes)
  {
    var s1 := init.(received := bytes, pending := bytes, phase := Batching);
    var s2 := s1.(phase := Receiving);
    s := s2.(phase := EnqueuingLast);
    assert init.received + bytes == bytes;
    assert Apply(c, init, Chunk(bytes)) == Some(s1) && Apply(c, s1, Cut) == Some(s2) && Apply(c, s2, NetworkEnd) == Some(s);
    hide Apply, Init;
    RunThree(c, init, Chunk(bytes), s1, Cut, s2, NetworkEnd, s);
  }

  lemma ChunkIsStored(c: Config, s: State) returns (last: State)
    requires s.phase == EnqueuingLast && s.writes == [] && s.queue == [] && s.done == [] && s.alive
    requires c.id in s.view && s.view[c.id] == Content(Staging, [])
    ensures Run(c, s, [Enqueue, Work(true, true), Reply]) == Some(last)
    ensures last.phase == Draining && last.writes == [] && last.queue == [] && last.alive
    ensures |last.done| == 1 && last.done[0].ok
    ensures c.id in last.view && last.view[c.id] == Content(Staging, s.pending)
  {
    var job := Append(s.pending);
    hide ContentModel.Released, Finished, OthersMay;
    var s1 := s.(queue := [Mine(job)], writes := [0], pending := [], phase := Draining);
    var s2 := s1.(queue := [], done := [Done(job, true)], view := Appended(s.view, c.id, s.pending));
    last := s2.(writes := []);
    assert MineOf([]) == [] && Jobs(s) == [];
    assert s.queue + [Mine(job)] == s1.queue && s.writes + [0] == s1.writes;
    assert Apply(c, s, Enqueue) == Some(s1);
    assert s1.queue[1..] == [] && s1.done + [Done(job, true)] == s2.done;
    assert Apply(c, s1, Work(true, true)) == Some(s2);
    assert s2.writes[1..] == [] && Apply(c, s2, Reply) == Some(last);
    assert [] + s.pending == s.pending;
    hide Apply, Jobs, MineOf;
    RunThree(c, s, Enqueue, s1, Work(true, true), s2, Reply, last);
  }

  lemma FinishIsDone(c: Config, s: State) returns (last: State)
    requires s.phase == Draining && s.writes == [] && s.queue == [] && s.alive && |s.done| == 1 && s.done[0].ok
    requires c.id in s.view && s.view[c.id].state == Staging
    ensures Run(c, s, [Cut, Enqueue, Work(true, true), Reply]) == Some(last)
    ensures last.phase == Succeeded && last.view == s.view[c.id := s.view[c.id].(state := Ready)]
  {
    var s1 := s.(phase := SendingFinish);
    var s2 := s1.(queue := [Mine(Finish)], phase := AwaitingFinish);
    var s3 := s2.(queue := [], done := s.done + [Done(Finish, true)], view := s.view[c.id := s.view[c.id].(state := Ready)]);
    last := s3.(phase := Succeeded);
    assert MineOf([]) == [];
    assert Apply(c, s, Cut) == Some(s1);
    assert s1.queue + [Mine(Finish)] == s2.queue;
    assert Apply(c, s1, Enqueue) == Some(s2);
    assert s2.queue[1..] == [];
    assert Apply(c, s2, Work(true, true)) == Some(s3);
    assert |Jobs(s3)| == 2;
    assert Apply(c, s3, Reply) == Some(last);
    hide Apply, Jobs, MineOf;
    assert [Cut, Enqueue, Work(true, true), Reply] == [Cut] + [Enqueue, Work(true, true), Reply];
    RunOne(c, s, Cut, [Enqueue, Work(true, true), Reply]);
    RunThree(c, s1, Enqueue, s2, Work(true, true), s3, Reply, last);
  }

  /** Whatever a capture waits for, it can be cancelled, and then it never succeeds any more. */
  lemma CancelIsFinal(c: Config, s: State, later: seq<Step>)
    requires !s.phase.Batching? && !s.phase.Succeeded? && !GivenUp(s.phase)
    ensures Apply(c, s, Cancel) == Some(s.(phase := SendingRelease))
    ensures Run(c, s, [Cancel] + later).Some? ==> GivenUp(Run(c, s, [Cancel] + later).value.phase)
  {
    var released := s.(phase := SendingRelease);
    assert ([Cancel] + later)[1..] == later;
    if Run(c, s, [Cancel] + later).Some? {
      GivenUpStays(c, released, later);
    }
  }

  lemma {:induction false} GivenUpStays(c: Config, s: State, steps: seq<Step>)
    requires GivenUp(s.phase) && Run(c, s, steps).Some?
    ensures GivenUp(Run(c, s, steps).value.phase)
    decreases |steps|
  {
    hide Jobs, AfterJob, OthersMay;
    if steps != [] {
      GivenUpStays(c, Apply(c, s, steps[0]).value, steps[1..]);
    }
  }

  /** Steps that need nobody outside: no network, no cancellation, no other client, no crash. */
  predicate Inner(step: Step) {
    step.Cut? || step.Enqueue? || step.SendFails? || step.Reply? || step.ReplyLost? || step.Work? || step.WorkOther?
  }

  lemma Moves(c: Config, s: State)
    requires Inv(c, s) && !s.phase.Succeeded? && !s.phase.Failed? && !s.phase.Receiving?
    ensures exists step: Step :: Inner(step) && Apply(c, s, step).Some?
  {
    hide MineOf, BytesIn, AppendsIn, Stored, FinishInv, ViewInv, AllOk, AllAppends;
    if s.phase.Batching? || (s.phase.Draining? && s.writes == []) {
      assert Apply(c, s, Cut).Some?;
    } else if !s.alive && Sending(s).Some? {
      assert Apply(c, s, SendFails).Some?;
    } else if Sending(s).Some? && |s.queue| < QUEUE_CAPACITY {
      assert Apply(c, s, Enqueue).Some?;
    } else if Sending(s).Some? {
      WorkerMoves(c, s);
    } else if Awaited(s).value < |s.done| {
      assert Apply(c, s, Reply).Some?;
    } else if !s.alive {
      assert Apply(c, s, ReplyLost).Some?;
    } else {
      AwaitedIsQueued(s);
      WorkerMoves(c, s);
    }
  }

  lemma WorkerMoves(c: Config, s: State)
    requires s.alive && s.queue != []
    ensures exists step: Step :: Inner(step) && Apply(c, s, step).Some?
  {
    if s.queue[0].Mine? {
      assert Apply(c, s, Work(false, false)).Some?;
    } else {
      assert Apply(c, s, WorkOther(s.view)).Some?;
    }
  }

  lemma AwaitedIsQueued(s: State)
    requires PhaseInv(s, Jobs(s)) && Awaited(s).Some? && |s.done| <= Awaited(s).value
    ensures s.queue != []
  {
    hide BytesIn, AllOk, AllAppends;
    assert Awaited(s).value < |Jobs(s)| by {
      if s.phase.AwaitingOldest? || s.phase.Draining? {
        assert s.writes[0] == |Jobs(s)| - |s.writes| + 0;
      }
    }
  }

  lemma SuccessIsFinal(c: Config, s: State)
    requires Inv(c, s) && s.phase.Succeeded?
    ensures Release !in Jobs(s)
  {
    hide Jobs, MineOf, BytesIn, AppendsIn, Stored, PhaseInv, FinishInv, ViewInv;
  }

  lemma ReadyHoldsAll(c: Config, s: State)
    requires Inv(c, s) && c.id in s.view && s.view[c.id].state != Staging
    ensures s.view[c.id].bytes == s.received
    ensures forall t :: 0 <= t < |Jobs(s)| && Jobs(s)[t].Append? ==> t < |s.done| && s.done[t].ok
  {
    hide MineOf, BytesIn, AppendsIn, Stored, PhaseInv, ReleaseInv;
    var i :| 0 <= i < |s.done| && s.done[i].job.Finish?;
    var jobs := Jobs(s);
    assert jobs[i].Finish?;
    assert JobsOf(s.done)[..i] == jobs[..i];
    forall j | i <= j < |s.done| ensures !s.done[j].job.Append? { assert jobs[j] == s.done[j].job; }
    StoredIsAll(s.done, i);
    forall t | 0 <= t < |jobs| && jobs[t].Append? ensures t < |s.done| && s.done[t].ok {
      assert t < i;
      assert s.done[..i][t] == s.done[t];
    }
  }
}
