/**
 Progress of the publish protocol: nothing hangs once something has failed, and every run ends.
 */
module PublishProgress {
  import opened Text
  import opened Publish

  predicate ProducerCancelled(c: Setup, s: State) { s.cancelled || (c.encrypted && s.inner) }

  // gpg can get on with its work unless its output pipe is full and still held.
  predicate GpgUnblocked(c: Setup, s: State) { |s.copier.buf| < c.outRoom || s.copier.phase.Stopped? }

  // Steps that need nobody's goodwill: code that only has to run, reads and writes with a
  // partner, a process that was killed or has reached the end of its input, and the answers
  // S3 must give. Not due: that the dump produces data or finishes, that gpg emits output,
  // that a part fails, that the SDK gives up early, that the caller cancels.
  predicate Due(c: Setup, s: State, step: Step) {
    && Enabled(c, s, step)
    && match step
       case Around(e) => e.FireReaderCloser? || e.FireBodyCloser? || e.FireWriterCloser?
       case Produce(p) =>
         p.OsAccepts? || p.ProducerEnds? || (p.WriteFails? && s.producer.todo > 0)
         || (p.ProducerReturns? && (s.producer.broken || ProducerCancelled(c, s)))
       case Encrypt(g) =>
         g.StartGpg? || ((g.GpgReads? || g.GpgReadsEof?) && GpgUnblocked(c, s))
         || (g.GpgExits? && (GpgCancelled(s) || (s.gpg.inputEnded && GpgUnblocked(c, s))))
       case Copy(_) => true
       case Join(_) => true
       case Send(u) => !u.SdkGivesUp? || s.upload.phase.AtEof?
       case Lead(_) => true
  }

  // Something has gone wrong, or the producer or gpg has come to an end.
  predicate Triggered(s: State) {
    || s.cancelled || s.upload.partFailed || s.gpg.phase.Exited? || s.producer.broken
    || s.producer.phase.Returned? || s.producer.phase.Ended?
  }

  // Everybody waits for the dump: nothing has failed, every byte it produced has been
  // passed on, and it is neither writing nor done.
  predicate WaitingForDump(c: Setup, s: State) {
    && !Triggered(s) && s.producer.phase.Producing? && s.producer.todo == 0
    && s.upload.phase.Reading? && s.outer.Working? && !s.pipe.busy && !s.pipe.readerClosed
    && (c.encrypted ==>
          && s.gate.Waiting? && s.gpg.phase.Running? && s.os == OsPipe([], false, false)
          && s.copier.phase.Copying? && s.copier.buf == [])
  }

  // A step of the producer's or gpg's side that is due.
  function NextSource(c: Setup, s: State): Option<Step> {
    if s.outer.Joined? then Some(Join(OuterSignals))
    else if s.outer.Signalled? then Some(Join(OuterSends))
    else if s.outer.Sent? then None
    else if s.pipe.busy then
      if s.pipe.pending == [] then Some(Copy(PipeWriteReturns))
      else if s.pipe.readerClosed then Some(Copy(PipeWriteFails)) else None
    else if !c.encrypted then
      if s.producer.phase.Returned? then Some(Join(PlainReturns))
      else if s.producer.broken || s.cancelled then Some(Produce(ProducerReturns(false)))
      else None
    else match s.gate
      case Opening => Some(Join(OpenPipe(true)))
      case Cancelling(_) => Some(Join(GateCancels))
      case ClosingReader(_) => Some(Join(GateClosesReader))
      case ClosingWriter(_) => Some(Join(GateClosesWriter))
      case Collecting(_) => if s.producer.phase.Ended? then Some(Join(GateCollects)) else NextProducer(c, s)
      case Waiting =>
        match s.gpg.phase
        case NotStarted => Some(Encrypt(StartGpg(true)))
        case Running => if GpgCancelled(s) then Some(Encrypt(GpgExits(false))) else NextGpg(c, s)
        case Exited(_) =>
          if s.copier.phase.Stopped? then Some(Join(RunReturns(s.gpg.phase.ok && s.copier.phase.ok)))
          else if s.copier.buf == [] then Some(Copy(CopierStops)) else Some(NextCopy(s))
  }

  function NextProducer(c: Setup, s: State): Option<Step> {
    if s.producer.phase.Returned? then Some(Produce(ProducerEnds))
    else if s.producer.todo > 0 then
      if OsWriteBroken(s) then Some(Produce(WriteFails))
      else if |s.os.buf| < c.pipeRoom then Some(Produce(OsAccepts(1))) else None
    else if s.producer.broken || ProducerCancelled(c, s) then Some(Produce(ProducerReturns(false)))
    else None
  }

  function NextCopy(s: State): Step {
    if s.pipe.readerClosed then Copy(CopierFails) else Copy(CopierWrites(1))
  }

  function NextGpg(c: Setup, s: State): Option<Step> {
    if s.copier.phase.Copying? && s.copier.buf != [] then Some(NextCopy(s))
    else if s.os.buf != [] then Some(Encrypt(GpgReads(1)))
    else if s.gpg.inputEnded then Some(Encrypt(GpgExits(false)))
    else if s.os.writerClosed then Some(Encrypt(GpgReadsEof))
    else NextProducer(c, s)
  }

  // A step that is due, if there is one.
  function NextDue(c: Setup, s: State): Option<Step> {
    match s.upload.phase
    case Entering => Some(Send(EnterUpload))
    case Sending => Some(Send(SdkSent))
    case AtEof => Some(Send(SdkGivesUp))
    case SdkDone(_) => Some(Send(UploadReturns))
    case Reading =>
      if s.pipe.readerClosed || s.pipe.writeEnd.Error? then Some(Send(SdkReadFails))
      else if s.pipe.writeEnd.Eof? then Some(Send(SdkReadsEof))
      else if s.pipe.pending != [] then Some(Send(SdkReads(1, false)))
      else if s.cancelled || s.upload.partFailed then Some(Around(FireBodyCloser))
      else NextSource(c, s)
    case UploadDone(_) =>
      match s.main
      case Uploading => Some(Lead(MainTakesUpload))
      case Closing => Some(Lead(MainCloses))
      case AwaitingDone(_) => if s.outer.Sent? then Some(Lead(MainReceives)) else NextSource(c, s)
      case Finished(_) => None
  }

  lemma NextGpgIsDue(c: Setup, s: State)
    requires Inv(c, s) && c.encrypted && s.outer.Working? && s.gate.Waiting? && s.gpg.phase.Running?
    requires !GpgCancelled(s) && !s.pipe.busy
    ensures NextGpg(c, s).Some? ==> Due(c, s, NextGpg(c, s).value)
    ensures NextGpg(c, s).None? ==>
      && s.producer.phase.Producing? && s.producer.todo == 0 && !s.producer.broken
      && s.os == OsPipe([], false, false) && (s.copier.phase.Copying? ==> s.copier.buf == [])
  {
  }

  lemma NextSourceIsDue(c: Setup, s: State)
    requires Inv(c, s) && (s.upload.phase.Reading? || s.main.AwaitingDone?)
    requires s.pipe.pending == [] || s.pipe.readerClosed
    ensures NextSource(c, s).Some? ==> Due(c, s, NextSource(c, s).value)
  {
    if c.encrypted && s.outer.Working? && s.gate.Waiting? && s.gpg.phase.Running? && !GpgCancelled(s) && !s.pipe.busy {
      NextGpgIsDue(c, s);
    }
  }

  lemma NextSourceExists(c: Setup, s: State)
    requires Inv(c, s) && NextSource(c, s).None?
    requires s.pipe.pending == [] || s.pipe.readerClosed
    requires s.upload.phase.Reading? || (s.main.AwaitingDone? && !s.outer.Sent?)
    requires s.upload.phase.Reading? ==>
      !s.pipe.readerClosed && s.pipe.writeEnd.Open? && !s.cancelled && !s.upload.partFailed
    ensures WaitingForDump(c, s)
  {
    if c.encrypted && s.outer.Working? && s.gate.Waiting? && s.gpg.phase.Running? && !GpgCancelled(s) && !s.pipe.busy {
      NextGpgIsDue(c, s);
    }
  }

  // The only states in which nothing is due are the end and the wait for the dump.
  lemma NextDueExact(c: Setup, s: State)
    requires Inv(c, s)
    ensures NextDue(c, s).Some? ==> Due(c, s, NextDue(c, s).value)
    ensures NextDue(c, s).None? ==> s.main.Finished? || WaitingForDump(c, s)
  {
    if s.upload.phase.Reading? {
      if !s.pipe.readerClosed && s.pipe.writeEnd.Open? && s.pipe.pending == [] && !s.cancelled && !s.upload.partFailed {
        NextSourceIsDue(c, s);
        if NextSource(c, s).None? { NextSourceExists(c, s); }
      }
    } else if s.main.AwaitingDone? && !s.outer.Sent? {
      NextSourceIsDue(c, s);
      if NextSource(c, s).None? { NextSourceExists(c, s); }
    }
  }

  lemma NothingDueAtRest(c: Setup, s: State, step: Step)
    requires Inv(c, s) && (s.main.Finished? || WaitingForDump(c, s))
    ensures !Due(c, s, step)
  {
  }

  // In every reachable state: a step is due unless the backup is over or everybody waits
  // for the dump. After a failure there is no such wait.
  lemma StallsOnlyOnTheDump(c: Setup, steps: seq<Step>)
    requires Execute(c, steps).Some?
    ensures var s := Execute(c, steps).value;
            (forall step :: !Due(c, s, step)) <==> (s.main.Finished? || WaitingForDump(c, s))
  {
    ReachableInv(c, steps);
    var s := Execute(c, steps).value;
    NextDueExact(c, s);
    if s.main.Finished? || WaitingForDump(c, s) {
      forall step ensures !Due(c, s, step) { NothingDueAtRest(c, s, step); }
    }
  }

  // ---- Every run ends --------------------------------------------------------------------

  function Flag(b: bool): nat { if b then 0 else 1 }

  function ProducerRank(p: ProducerPhase): nat {
    match p case Idle => 3 case Producing => 2 case Returned(_) => 1 case Ended(_) => 0
  }
  function GpgRank(g: GpgPhase): nat {
    match g case NotStarted => 2 case Running => 1 case Exited(_) => 0
  }
  function GateRank(g: Gate): nat {
    match g
    case Opening => 5 case Waiting => 4 case Cancelling(_) => 3
    case ClosingReader(_) => 2 case ClosingWriter(_) => 1 case Collecting(_) => 0
  }
  function OuterRank(o: Outer): nat {
    match o case Working => 3 case Joined(_) => 2 case Signalled(_) => 1 case Sent(_) => 0
  }
  function UploadRank(u: UploadPhase): nat {
    match u
    case Entering => 5 case Sending => 4 case Reading => 3 case AtEof => 2 case SdkDone(_) => 1 case UploadDone(_) => 0
  }
  function MainRank(m: Main): nat {
    match m case Uploading => 3 case Closing => 2 case AwaitingDone(_) => 1 case Finished(_) => 0
  }

  // Bytes still to travel, weighted by how far.
  function Bytes(c: Setup, s: State): int {
    5 * (|c.bundle| - |s.producer.written|) + |s.os.buf|
    + 6 * (c.gpgLimit - |s.gpg.emitted|) + 5 * |s.copier.buf| + 3 * |s.pipe.pending|
  }

  // What has not happened yet.
  function Flags(s: State): int {
    Flag(s.producer.todo > 0) + Flag(!s.pipe.busy)
    + Flag(s.cancelled) + Flag(s.inner) + Flag(s.upload.partFailed) + 2 * Flag(s.producer.broken)
    + Flag(s.pipe.readerClosed) + Flag(s.os.writerClosed) + Flag(s.gpg.inputEnded)
  }

  // And the places left to go.
  function Ranks(s: State): int {
    ProducerRank(s.producer.phase) + GpgRank(s.gpg.phase) + (if s.copier.phase.Copying? then 1 else 0)
    + GateRank(s.gate) + OuterRank(s.outer) + UploadRank(s.upload.phase) + MainRank(s.main)
  }

  function Measure(c: Setup, s: State): int { Bytes(c, s) + Flags(s) + Ranks(s) }

  lemma MeasureBounded(c: Setup, s: State)
    requires Inv(c, s)
    ensures 0 <= Measure(c, s)
  {
  }

  lemma EnvDecreases(c: Setup, s: State, step: EnvStep)
    requires EnvEnabled(c, s, step)
    ensures Measure(c, EnvAfter(s, step)) < Measure(c, s)
  {
  }

  lemma ProducerDecreases(c: Setup, s: State, step: ProducerStep)
    requires Inv(c, s) && ProducerEnabled(c, s, step)
    ensures Measure(c, ProducerAfter(c, s, step)) < Measure(c, s)
  {
  }

  lemma GpgDecreases(c: Setup, s: State, step: GpgStep)
    requires Inv(c, s) && GpgEnabled(c, s, step)
    ensures Measure(c, GpgAfter(c, s, step)) < Measure(c, s)
  {
  }

  lemma CopierDecreases(c: Setup, s: State, step: CopierStep)
    requires Inv(c, s) && CopierEnabled(c, s, step)
    ensures Measure(c, CopierAfter(c, s, step)) < Measure(c, s)
  {
  }

  lemma JoinDecreases(c: Setup, s: State, step: JoinStep)
    requires Inv(c, s) && JoinEnabled(c, s, step)
    ensures Measure(c, JoinAfter(c, s, step)) < Measure(c, s)
  {
  }

  lemma SdkReadsDecreases(c: Setup, s: State, n: nat, send: bool)
    requires UploadEnabled(c, s, SdkReads(n, send))
    ensures Measure(c, UploadAfter(c, s, SdkReads(n, send))) < Measure(c, s)
  {
    var t := UploadAfter(c, s, SdkReads(n, send));
    assert Bytes(c, t) == Bytes(c, s) - 3 * n;
    hide Bytes;
    assert Flags(t) == Flags(s);
    hide Flags;
  }

  lemma UploadDecreases(c: Setup, s: State, step: UploadStep)
    requires UploadEnabled(c, s, step)
    ensures Measure(c, UploadAfter(c, s, step)) < Measure(c, s)
  {
    hide UploadEnabled, UploadAfter, Measure;
    if step.SdkReads? { SdkReadsDecreases(c, s, step.n, step.send); } else { UploadMovesOn(c, s, step); }
  }

  lemma UploadMovesOn(c: Setup, s: State, step: UploadStep)
    requires UploadEnabled(c, s, step) && !step.SdkReads?
    ensures Measure(c, UploadAfter(c, s, step)) < Measure(c, s)
  {
    hide UploadEnabled, UploadAfter, Measure;
    if step.EnterUpload? || step.UploadReturns? { UploadOpensAndCloses(c, s, step); } else { SdkMovesOn(c, s, step); }
  }

  lemma UploadOpensAndCloses(c: Setup, s: State, step: UploadStep)
    requires UploadEnabled(c, s, step) && (step.EnterUpload? || step.UploadReturns?)
    ensures Measure(c, UploadAfter(c, s, step)) < Measure(c, s)
  {
  }

  lemma SdkMovesOn(c: Setup, s: State, step: UploadStep)
    requires UploadEnabled(c, s, step) && !step.SdkReads? && !step.EnterUpload? && !step.UploadReturns?
    ensures Measure(c, UploadAfter(c, s, step)) < Measure(c, s)
  {
  }

  lemma MainDecreases(c: Setup, s: State, step: MainStep)
    requires Inv(c, s) && MainEnabled(s, step)
    ensures Measure(c, MainAfter(s, step)) < Measure(c, s)
  {
  }

  lemma StepDecreases(c: Setup, s: State, step: Step)
    requires Inv(c, s) && Enabled(c, s, step)
    ensures Measure(c, After(c, s, step)) < Measure(c, s)
  {
    match step
    case Around(e) => EnvDecreases(c, s, e);
    case Produce(p) => ProducerDecreases(c, s, p);
    case Encrypt(g) => GpgDecreases(c, s, g);
    case Copy(k) => CopierDecreases(c, s, k);
    case Join(j) => JoinDecreases(c, s, j);
    case Send(u) => UploadDecreases(c, s, u);
    case Lead(m) => MainDecreases(c, s, m);
  }

  lemma MeasureAtStart(c: Setup)
    ensures Measure(c, Init(c)) <= 5 * |c.bundle| + 6 * c.gpgLimit + 32
  {
  }

  // No schedule is longer than the work there was at the start.
  lemma {:induction false} RunsAreBounded(c: Setup, steps: seq<Step>)
    requires Execute(c, steps).Some?
    ensures |steps| + Measure(c, Execute(c, steps).value) <= Measure(c, Init(c))
    ensures |steps| <= 5 * |c.bundle| + 6 * c.gpgLimit + 32
  {
    hide Enabled, After, Inv, Measure, Init;
    if steps != [] {
      var last := |steps| - 1;
      RunsAreBounded(c, steps[..last]);
      var s := Execute(c, steps[..last]).value;
      ReachableInv(c, steps[..last]);
      StepDecreases(c, s, steps[last]);
    }
    ReachableInv(c, steps);
    MeasureBounded(c, Execute(c, steps).value);
    MeasureAtStart(c);
  }

  // ---- No hang after a failure ----------------------------------------------------------------

  lemma TriggeredStays(c: Setup, s: State, step: Step)
    requires Gating(c, s) && Enabled(c, s, step) && Triggered(s)
    ensures Triggered(After(c, s, step))
  {
  }

  lemma {:induction false} TriggeredLater(c: Setup, steps: seq<Step>, i: nat)
    requires i <= |steps| && Execute(c, steps).Some?
    ensures Execute(c, steps[..i]).Some?
    ensures Triggered(Execute(c, steps[..i]).value) ==> Triggered(Execute(c, steps).value)
  {
    if i < |steps| {
      var shorter := steps[..|steps| - 1];
      TriggeredLater(c, shorter, i);
      assert shorter[..i] == steps[..i];
      ReachableInv(c, shorter);
      if Triggered(Execute(c, shorter).value) { TriggeredStays(c, Execute(c, shorter).value, steps[|steps| - 1]); }
    } else {
      assert steps[..i] == steps;
    }
  }

  // Everything the backup started has come to an end.
  ghost predicate AllStopped(c: Setup, s: State) {
    && s.main.Finished? && s.outer.Sent? && s.upload.phase.UploadDone? && !s.pipe.busy && s.pipe.readerClosed
    && (if c.encrypted then
          (s.gate.Opening? && s.producer.phase.Idle? && s.gpg.phase.NotStarted?)
          || (s.producer.phase.Ended? && s.gpg.phase.Exited? && s.copier.phase.Stopped?)
        else s.producer.phase.Returned?)
  }

  // Once gpg has exited, a part has failed, the producer has failed or ended, or the context
  // is cancelled: a run that stops only when nothing is due has ended every party, wherever
  // the producer was blocked. By RunsAreBounded each run does stop.
  lemma NoHangAfterFailure(c: Setup, steps: seq<Step>, i: nat)
    requires i <= |steps| && Execute(c, steps).Some? && Execute(c, steps[..i]).Some?
    requires Triggered(Execute(c, steps[..i]).value)
    requires forall step :: !Due(c, Execute(c, steps).value, step)
    ensures AllStopped(c, Execute(c, steps).value)
  {
    TriggeredLater(c, steps, i);
    ReachableInv(c, steps);
    StallsOnlyOnTheDump(c, steps);
  }
}
