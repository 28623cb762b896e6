/**
 The streaming publish protocol of one database backup, as a transition system.

 Parties: the producer (writeBundle), gpg, the goroutine that copies gpg's standard output,
 the goroutine that joins their results, the uploader with its SDK, and the main goroutine.
 Without a passphrase the producer writes straight into the io.Pipe.
 Every interleaving is a schedule: a sequence of `Step`s.
 */
module Publish {
  import opened Text

  type positive = n: nat | 0 < n witness 1

  // What is fixed for one backup: the bytes writeBundle writes when every stage succeeds,
  // what gpg emits for a given input, the room in the two kernel pipes, and a bound on
  // what gpg may emit at all.
  datatype Setup = Setup(
    encrypted: bool, bundle: text, cipher: text -> text,
    pipeRoom: positive, outRoom: positive, gpgLimit: nat)

  // What CloseWithError recorded on the writing side of the io.Pipe.
  datatype WriteEnd = Open | Eof | Error

  // The io.Pipe: what is left of the write in progress, whether that Write call is still
  // out, and how each side was closed.
  datatype IoPipe = IoPipe(pending: text, busy: bool, readerClosed: bool, writeEnd: WriteEnd)

  // The OS pipe into gpg: bytes gpg has not read, and the parent's two ends.
  datatype OsPipe = OsPipe(buf: text, writerClosed: bool, readerClosed: bool)

  // `written` is what the producer's pipe has accepted, `todo` what is left of a write call
  // on the OS pipe, `broken` whether one of its writes failed.
  datatype ProducerPhase = Idle | Producing | Returned(ok: bool) | Ended(ok: bool)
  datatype Producer = Producer(phase: ProducerPhase, written: text, todo: nat, broken: bool)

  datatype GpgPhase = NotStarted | Running | Exited(ok: bool)
  datatype Gpg = Gpg(phase: GpgPhase, consumed: text, inputEnded: bool, emitted: text)

  // `buf` is gpg's standard output not yet copied, `relayed` what the copier took from it.
  datatype CopierPhase = Copying | Stopped(ok: bool)
  datatype Copier = Copier(phase: CopierPhase, buf: text, relayed: text)

  // Where produceEncrypted is, and the goroutine that closes the io.Pipe with its result.
  datatype Gate =
    | Opening | Waiting
    | Cancelling(ok: bool) | ClosingReader(ok: bool) | ClosingWriter(ok: bool) | Collecting(ok: bool)
  datatype Outer = Working | Joined(ok: bool) | Signalled(ok: bool) | Sent(ok: bool)

  datatype UploadPhase = Entering | Reading | Sending | AtEof | SdkDone(ok: bool) | UploadDone(ok: bool)
  datatype Upload = Upload(phase: UploadPhase, received: text, partFailed: bool, published: Option<text>)

  datatype Main = Uploading | Closing | AwaitingDone(ok: bool) | Finished(ok: bool)

  // `cancelled` is the context of backupDatabase, `inner` that of produceEncrypted.
  datatype State = State(
    cancelled: bool, inner: bool, pipe: IoPipe, os: OsPipe, producer: Producer,
    gpg: Gpg, copier: Copier, gate: Gate, outer: Outer, upload: Upload, main: Main)

  function Init(c: Setup): State {
    State(false, false, IoPipe([], false, false, Open), OsPipe([], false, false),
          Producer(if c.encrypted then Idle else Producing, [], 0, false),
          Gpg(NotStarted, [], false, []), Copier(Copying, [], []), Opening, Working,
          Upload(Entering, [], false, None), Uploading)
  }

  datatype Step =
    | Around(env: EnvStep) | Produce(prod: ProducerStep) | Encrypt(enc: GpgStep) | Copy(copy: CopierStep)
    | Join(join: JoinStep) | Send(up: UploadStep) | Lead(lead: MainStep)

  // ---- The caller, the network and the context.AfterFunc closers -------------------

  datatype EnvStep = CallerCancels | PartFails | FireReaderCloser | FireBodyCloser | FireWriterCloser

  predicate GpgCancelled(s: State) { s.cancelled || s.inner }
  predicate SdkActive(s: State) { s.upload.phase.Reading? || s.upload.phase.Sending? || s.upload.phase.AtEof? }

  predicate EnvEnabled(c: Setup, s: State, step: EnvStep) {
    match step
    case CallerCancels => !s.cancelled
    case PartFails => SdkActive(s) && !s.upload.partFailed
    case FireReaderCloser => s.cancelled && !s.pipe.readerClosed
    case FireBodyCloser => (s.cancelled || s.upload.partFailed) && !s.upload.phase.Entering? && !s.pipe.readerClosed
    case FireWriterCloser => c.encrypted && !s.gate.Opening? && GpgCancelled(s) && !s.os.writerClosed
  }

  function EnvAfter(s: State, step: EnvStep): State {
    match step
    case CallerCancels => s.(cancelled := true)
    case PartFails => s.(upload := s.upload.(partFailed := true))
    case FireReaderCloser => s.(pipe := s.pipe.(readerClosed := true))
    case FireBodyCloser => s.(pipe := s.pipe.(readerClosed := true))
    case FireWriterCloser => s.(os := s.os.(writerClosed := true))
  }

  // ---- The producer ---------------------------------------------------------------

  datatype ProducerStep =
    | BeginWrite(n: nat) | OsAccepts(n: nat) | WriteFails | ProducerReturns(ok: bool) | ProducerEnds

  predicate OsWriteBroken(s: State) { s.os.writerClosed || (s.os.readerClosed && !s.gpg.phase.Running?) }

  predicate ProducerEnabled(c: Setup, s: State, step: ProducerStep) {
    var p := s.producer;
    match step
    case BeginWrite(n) =>
      && p.phase.Producing? && !p.broken && 0 < n <= |c.bundle| - |p.written|
      && (if c.encrypted then p.todo == 0 && !OsWriteBroken(s) else !s.pipe.busy && !s.pipe.readerClosed)
    case OsAccepts(n) =>
      && c.encrypted && !OsWriteBroken(s) && 0 < n <= p.todo
      && |s.os.buf| + n <= c.pipeRoom && |p.written| + n <= |c.bundle|
    case WriteFails =>
      && p.phase.Producing? && !p.broken
      && (if c.encrypted then OsWriteBroken(s) else !s.pipe.busy && s.pipe.readerClosed)
    case ProducerReturns(ok) =>
      && p.phase.Producing? && p.todo == 0 && (c.encrypted || !s.pipe.busy)
      && (ok ==> !p.broken && p.written == c.bundle)
    case ProducerEnds => c.encrypted && p.phase.Returned?
  }

  function ProducerAfter(c: Setup, s: State, step: ProducerStep): State
    requires ProducerEnabled(c, s, step)
  {
    var p := s.producer;
    match step
    case BeginWrite(n) =>
      if c.encrypted then s.(producer := p.(todo := n))
      else
        var chunk := c.bundle[|p.written|..|p.written| + n];
        s.(producer := p.(written := p.written + chunk), pipe := s.pipe.(pending := chunk, busy := true))
    case OsAccepts(n) =>
      var chunk := c.bundle[|p.written|..|p.written| + n];
      s.(producer := p.(written := p.written + chunk, todo := p.todo - n), os := s.os.(buf := s.os.buf + chunk))
    case WriteFails => s.(producer := p.(todo := 0, broken := true))
    case ProducerReturns(ok) => s.(producer := p.(phase := Returned(ok)))
    case ProducerEnds => s.(producer := p.(phase := Ended(p.phase.ok)), os := s.os.(writerClosed := true))
  }

  // ---- gpg ------------------------------------------------------------------------

  datatype GpgStep = StartGpg(ok: bool) | GpgReads(n: nat) | GpgReadsEof | GpgEmits(out: text) | GpgExits(ok: bool)

  predicate GpgEnabled(c: Setup, s: State, step: GpgStep) {
    var g := s.gpg;
    match step
    case StartGpg(_) => s.gate.Waiting? && g.phase.NotStarted?
    case GpgReads(n) => g.phase.Running? && 0 < n <= |s.os.buf|
    case GpgReadsEof => g.phase.Running? && s.os.buf == [] && s.os.writerClosed && !g.inputEnded
    case GpgEmits(out) =>
      && g.phase.Running? && s.copier.phase.Copying? && out != []
      && |s.copier.buf| + |out| <= c.outRoom && |g.emitted| + |out| <= c.gpgLimit
    case GpgExits(ok) => g.phase.Running? && (ok ==> g.inputEnded && g.emitted == c.cipher(g.consumed))
  }

  function GpgAfter(c: Setup, s: State, step: GpgStep): State
    requires GpgEnabled(c, s, step)
  {
    var g := s.gpg;
    match step
    case StartGpg(ok) =>
      if ok then s.(gpg := g.(phase := Running))
      else s.(gpg := g.(phase := Exited(false)), copier := s.copier.(phase := Stopped(true)))
    case GpgReads(n) => s.(gpg := g.(consumed := g.consumed + s.os.buf[..n]), os := s.os.(buf := s.os.buf[n..]))
    case GpgReadsEof => s.(gpg := g.(inputEnded := true))
    case GpgEmits(out) => s.(gpg := g.(emitted := g.emitted + out), copier := s.copier.(buf := s.copier.buf + out))
    case GpgExits(ok) => s.(gpg := g.(phase := Exited(ok)))
  }

  // ---- Writing into the io.Pipe -----------------------------------------------------

  datatype CopierStep = CopierWrites(n: nat) | CopierFails | CopierStops | PipeWriteReturns | PipeWriteFails

  predicate CopierEnabled(c: Setup, s: State, step: CopierStep) {
    var k := s.copier;
    match step
    case CopierWrites(n) => k.phase.Copying? && !s.pipe.busy && !s.pipe.readerClosed && 0 < n <= |k.buf|
    case CopierFails => k.phase.Copying? && !s.pipe.busy && s.pipe.readerClosed && k.buf != []
    case CopierStops => k.phase.Copying? && !s.pipe.busy && k.buf == [] && s.gpg.phase.Exited?
    case PipeWriteReturns => s.pipe.busy && s.pipe.pending == []
    case PipeWriteFails => s.pipe.busy && s.pipe.pending != [] && s.pipe.readerClosed
  }

  function CopierAfter(c: Setup, s: State, step: CopierStep): State
    requires CopierEnabled(c, s, step)
  {
    var k := s.copier;
    match step
    case CopierWrites(n) =>
      s.(copier := k.(buf := k.buf[n..], relayed := k.relayed + k.buf[..n]),
         pipe := s.pipe.(pending := k.buf[..n], busy := true))
    case CopierFails => s.(copier := k.(phase := Stopped(false)))
    case CopierStops => s.(copier := k.(phase := Stopped(true)))
    case PipeWriteReturns => s.(pipe := s.pipe.(busy := false))
    case PipeWriteFails =>
      var idle := s.pipe.(busy := false, pending := []);
      if c.encrypted then s.(pipe := idle, copier := k.(phase := Stopped(false)))
      else s.(pipe := idle, producer := s.producer.(broken := true))
  }

  // ---- produceEncrypted and the goroutine around it -----------------------------------

  datatype JoinStep =
    | OpenPipe(ok: bool) | RunReturns(ok: bool) | GateCancels | GateClosesReader | GateClosesWriter | GateCollects
    | PlainReturns | OuterSignals | OuterSends

  predicate JoinEnabled(c: Setup, s: State, step: JoinStep) {
    match step
    case OpenPipe(_) => c.encrypted && s.gate.Opening? && s.outer.Working?
    case RunReturns(ok) =>
      && s.gate.Waiting? && s.gpg.phase.Exited? && s.copier.phase.Stopped?
      && (if ok then s.gpg.phase.ok && s.copier.phase.ok
          else !s.gpg.phase.ok || !s.copier.phase.ok || GpgCancelled(s))
    case GateCancels => s.gate.Cancelling?
    case GateClosesReader => s.gate.ClosingReader?
    case GateClosesWriter => s.gate.ClosingWriter?
    case GateCollects => s.gate.Collecting? && s.producer.phase.Ended? && s.outer.Working?
    case PlainReturns => !c.encrypted && s.producer.phase.Returned? && s.outer.Working?
    case OuterSignals => s.outer.Joined?
    case OuterSends => s.outer.Signalled?
  }

  function JoinAfter(c: Setup, s: State, step: JoinStep): State
    requires JoinEnabled(c, s, step)
  {
    match step
    case OpenPipe(ok) =>
      if ok then s.(gate := Waiting, producer := s.producer.(phase := Producing)) else s.(outer := Joined(false))
    case RunReturns(ok) => s.(gate := Cancelling(ok))
    case GateCancels => s.(inner := true, gate := ClosingReader(s.gate.ok))
    case GateClosesReader => s.(os := s.os.(readerClosed := true), gate := ClosingWriter(s.gate.ok))
    case GateClosesWriter => s.(os := s.os.(writerClosed := true), gate := Collecting(s.gate.ok))
    case GateCollects => s.(outer := Joined(s.gate.ok && s.producer.phase.ok))
    case PlainReturns => s.(outer := Joined(s.producer.phase.ok))
    case OuterSignals =>
      s.(pipe := s.pipe.(writeEnd := if s.outer.ok then Eof else Error), outer := Signalled(s.outer.ok))
    case OuterSends => s.(outer := Sent(s.outer.ok))
  }

  // ---- Upload and the SDK -------------------------------------------------------------

  datatype UploadStep =
    | EnterUpload | SdkReads(n: nat, send: bool) | SdkSent | SdkReadsEof | SdkReadFails
    | SdkGivesUp | SdkCompletes(ok: bool, visible: bool) | UploadReturns

  predicate UploadEnabled(c: Setup, s: State, step: UploadStep) {
    var u := s.upload;
    match step
    case EnterUpload => u.phase.Entering?
    case SdkReads(n, _) =>
      u.phase.Reading? && !s.pipe.readerClosed && s.pipe.writeEnd.Open? && 0 < n <= |s.pipe.pending|
    case SdkSent => u.phase.Sending?
    case SdkReadsEof => u.phase.Reading? && !s.pipe.readerClosed && s.pipe.writeEnd.Eof?
    case SdkReadFails => u.phase.Reading? && (s.pipe.readerClosed || s.pipe.writeEnd.Error?)
    case SdkGivesUp => SdkActive(s)
    case SdkCompletes(ok, visible) => u.phase.AtEof? && !u.partFailed && (ok ==> visible)
    case UploadReturns => u.phase.SdkDone?
  }

  function UploadAfter(c: Setup, s: State, step: UploadStep): State
    requires UploadEnabled(c, s, step)
  {
    var u := s.upload;
    match step
    case EnterUpload =>
      if s.cancelled then s.(upload := u.(phase := UploadDone(false)), pipe := s.pipe.(readerClosed := true))
      else s.(upload := u.(phase := Reading))
    case SdkReads(n, send) =>
      s.(upload := u.(received := u.received + s.pipe.pending[..n], phase := if send then Sending else Reading),
         pipe := s.pipe.(pending := s.pipe.pending[n..]))
    case SdkSent => s.(upload := u.(phase := Reading))
    case SdkReadsEof => s.(upload := u.(phase := AtEof))
    case SdkReadFails => s.(upload := u.(phase := SdkDone(false)))
    case SdkGivesUp => s.(upload := u.(phase := SdkDone(false)))
    case SdkCompletes(ok, visible) =>
      s.(upload := u.(phase := SdkDone(ok), published := if visible then Some(u.received) else u.published))
    case UploadReturns =>
      s.(upload := u.(phase := UploadDone(u.phase.ok && !s.cancelled && !u.partFailed)),
         pipe := s.pipe.(readerClosed := true))
  }

  // ---- The main goroutine ---------------------------------------------------------------

  datatype MainStep = MainTakesUpload | MainCloses | MainReceives

  predicate MainEnabled(s: State, step: MainStep) {
    match step
    case MainTakesUpload => s.main.Uploading? && s.upload.phase.UploadDone?
    case MainCloses => s.main.Closing?
    case MainReceives => s.main.AwaitingDone? && s.outer.Sent?
  }

  function MainAfter(s: State, step: MainStep): State
    requires MainEnabled(s, step)
  {
    match step
    case MainTakesUpload =>
      if s.upload.phase.ok then s.(main := AwaitingDone(true)) else s.(main := Closing, cancelled := true)
    case MainCloses => s.(pipe := s.pipe.(readerClosed := true), main := AwaitingDone(false))
    case MainReceives => s.(main := Finished(s.main.ok && s.outer.ok))
  }

  // ---- Runs -------------------------------------------------------------------------------

  predicate Enabled(c: Setup, s: State, step: Step) {
    match step
    case Around(e) => EnvEnabled(c, s, e)
    case Produce(p) => ProducerEnabled(c, s, p)
    case Encrypt(g) => GpgEnabled(c, s, g)
    case Copy(k) => CopierEnabled(c, s, k)
    case Join(j) => JoinEnabled(c, s, j)
    case Send(u) => UploadEnabled(c, s, u)
    case Lead(m) => MainEnabled(s, m)
  }

  function After(c: Setup, s: State, step: Step): State
    requires Enabled(c, s, step)
  {
    match step
    case Around(e) => EnvAfter(s, e)
    case Produce(p) => ProducerAfter(c, s, p)
    case Encrypt(g) => GpgAfter(c, s, g)
    case Copy(k) => CopierAfter(c, s, k)
    case Join(j) => JoinAfter(c, s, j)
    case Send(u) => UploadAfter(c, s, u)
    case Lead(m) => MainAfter(s, m)
  }

  // The state a schedule leads to; None when one of its steps is not possible.
  function Execute(c: Setup, steps: seq<Step>): Option<State> {
    if steps == [] then Some(Init(c))
    else
      var last := |steps| - 1;
      match Execute(c, steps[..last])
      case None => None
      case Some(s) => if Enabled(c, s, steps[last]) then Some(After(c, s, steps[last])) else None
  }

  // ---- What every step keeps ------------------------------------------------------------

  // Whether every write on the io.Pipe so far has gone through.
  predicate PipeIntact(c: Setup, s: State) {
    if c.encrypted then s.copier.phase != Stopped(false) else !s.producer.broken
  }

  // No byte is lost, duplicated or reordered on the way into the io.Pipe.
  ghost predicate Sources(c: Setup, s: State) {
    var p, g, k := s.producer, s.gpg, s.copier;
    && p.written <= c.bundle
    && p.todo <= |c.bundle| - |p.written|
    && (p.todo > 0 ==> p.phase.Producing? && !p.broken)
    && (if c.encrypted then p.written == g.consumed + s.os.buf && g.emitted == k.relayed + k.buf
        else p.todo == 0 && k.buf == [])
    && |s.os.buf| <= c.pipeRoom && |k.buf| <= c.outRoom && |g.emitted| <= c.gpgLimit
  }

  // Nor through the io.Pipe to the SDK, as long as its reading side is open.
  ghost predicate Flow(c: Setup, s: State) {
    var relayed := if c.encrypted then s.copier.relayed else s.producer.written;
    && (PipeIntact(c, s) ==> relayed == s.upload.received + s.pipe.pending)
    && (!PipeIntact(c, s) ==> s.pipe.readerClosed && !s.pipe.busy)
    && (!s.pipe.busy ==> s.pipe.pending == [])
    && (s.pipe.busy ==>
          if c.encrypted then s.copier.phase.Copying? else s.producer.phase.Producing? && !s.producer.broken)
  }

  // A result is only ever success when the work behind it is complete.
  ghost predicate Results(c: Setup, s: State) {
    var p, g, k := s.producer, s.gpg, s.copier;
    && (g.inputEnded ==> s.os.writerClosed && s.os.buf == [])
    && (g.phase == Exited(true) ==> g.inputEnded && g.emitted == c.cipher(g.consumed))
    && (k.phase == Stopped(true) ==> g.phase.Exited? && k.buf == [] && !s.pipe.busy)
    && (p.phase == Returned(true) || p.phase == Ended(true) ==> !p.broken && p.written == c.bundle)
    && (p.phase.Ended? ==> s.os.writerClosed)
    && (p.broken ==> if c.encrypted then s.os.writerClosed || s.os.readerClosed else s.pipe.readerClosed)
  }

  // produceEncrypted waits for gpg and the copier, then for the producer.
  ghost predicate Gating(c: Setup, s: State) {
    var p, g, k := s.producer, s.gpg, s.copier;
    && (s.gate.Opening? <==> (c.encrypted && p.phase.Idle?) || !c.encrypted)
    && (s.gate.Opening? ==> g.phase.NotStarted?)
    && (g.phase.NotStarted? ==> s.gate.Opening? || s.gate.Waiting?)
    && (c.encrypted && g.phase.NotStarted? ==> k.phase.Copying? && k.buf == [] && !s.pipe.busy)
    && (g.phase.Running? ==> s.gate.Waiting?)
    && (!s.gate.Opening? && !s.gate.Waiting? ==>
          && g.phase.Exited? && k.phase.Stopped?
          && (s.gate.ok ==> g.phase.ok && k.phase.ok)
          && (s.gate.Collecting? ==> s.os.writerClosed))
    && (s.inner <==> s.gate.ClosingReader? || s.gate.ClosingWriter? || s.gate.Collecting?)
    && (s.os.readerClosed <==> s.gate.ClosingWriter? || s.gate.Collecting?)
    && (!c.encrypted ==> k.phase.Copying? && !p.phase.Ended? && !p.phase.Idle?)
    && (!s.outer.Working? ==>
          if !c.encrypted then p.phase.Returned? && s.outer.ok == p.phase.ok
          else if s.gate.Opening? then !s.outer.ok
          else s.gate.Collecting? && p.phase.Ended? && s.outer.ok == (s.gate.ok && p.phase.ok))
  }

  // The uploader and the main goroutine.
  ghost predicate Consumers(s: State) {
    var u := s.upload;
    && s.pipe.writeEnd == (if s.outer.Working? || s.outer.Joined? then Open else if s.outer.ok then Eof else Error)
    && (u.phase.AtEof? ==> s.pipe.writeEnd.Eof?)
    && (u.published.Some? ==>
          s.pipe.writeEnd.Eof? && u.published.value == u.received && (u.phase.SdkDone? || u.phase.UploadDone?))
    && (u.phase == SdkDone(true) || u.phase == UploadDone(true) ==> u.published.Some?)
    && (u.phase.UploadDone? ==> s.pipe.readerClosed)
    && (!s.main.Uploading? ==> u.phase.UploadDone?)
    && (s.main.Closing? ==> s.cancelled && !u.phase.ok)
    && (s.main.AwaitingDone? ==> s.main.ok == u.phase.ok && (!s.main.ok ==> s.cancelled))
    && (s.main.Finished? ==> s.outer.Sent? && s.main.ok == (u.phase.ok && s.outer.ok))
  }

  ghost predicate Inv(c: Setup, s: State) {
    Sources(c, s) && Flow(c, s) && Results(c, s) && Gating(c, s) && Consumers(s)
  }

  lemma EnvKeeps(c: Setup, s: State, step: EnvStep)
    requires Inv(c, s) && EnvEnabled(c, s, step)
    ensures Inv(c, EnvAfter(s, step))
  {
  }

  lemma BeginWriteData(c: Setup, s: State, n: nat)
    requires Inv(c, s) && ProducerEnabled(c, s, BeginWrite(n))
    ensures Sources(c, ProducerAfter(c, s, BeginWrite(n))) && Flow(c, ProducerAfter(c, s, BeginWrite(n)))
  {
    hide Results, Consumers;
    NextChunk(c, s, n);
  }

  lemma OsAcceptsData(c: Setup, s: State, n: nat)
    requires Inv(c, s) && ProducerEnabled(c, s, OsAccepts(n))
    ensures Sources(c, ProducerAfter(c, s, OsAccepts(n))) && Flow(c, ProducerAfter(c, s, OsAccepts(n)))
  {
    hide Results, Gating, Consumers;
    NextChunk(c, s, n);
  }

  // The producer writes its bundle in order.
  lemma NextChunk(c: Setup, s: State, n: nat)
    requires s.producer.written <= c.bundle && |s.producer.written| + n <= |c.bundle|
    ensures var w := s.producer.written;
            var chunk := c.bundle[|w|..|w| + n];
      && |chunk| == n && w + chunk <= c.bundle
      && s.gpg.consumed + s.os.buf + chunk == s.gpg.consumed + (s.os.buf + chunk)
      && s.upload.received + [] + chunk == s.upload.received + chunk
  {
    Assoc(s.gpg.consumed, s.os.buf, c.bundle[|s.producer.written|..|s.producer.written| + n]);
  }

  lemma ProducerEndsData(c: Setup, s: State, step: ProducerStep)
    requires Inv(c, s) && ProducerEnabled(c, s, step) && !step.BeginWrite? && !step.OsAccepts?
    ensures Sources(c, ProducerAfter(c, s, step)) && Flow(c, ProducerAfter(c, s, step))
  {
    hide Consumers;
  }

  lemma ProducerKeepsData(c: Setup, s: State, step: ProducerStep)
    requires Inv(c, s) && ProducerEnabled(c, s, step)
    ensures Sources(c, ProducerAfter(c, s, step)) && Flow(c, ProducerAfter(c, s, step))
  {
    hide Inv, Sources, Flow, ProducerEnabled, ProducerAfter;
    match step
    case BeginWrite(n) => BeginWriteData(c, s, n);
    case OsAccepts(n) => OsAcceptsData(c, s, n);
    case _ => ProducerEndsData(c, s, step);
  }

  lemma ProducerKeepsControl(c: Setup, s: State, step: ProducerStep)
    requires Inv(c, s) && ProducerEnabled(c, s, step)
    ensures Results(c, ProducerAfter(c, s, step)) && Gating(c, ProducerAfter(c, s, step))
      && Consumers(ProducerAfter(c, s, step))
  {
  }

  lemma ProducerKeeps(c: Setup, s: State, step: ProducerStep)
    requires Inv(c, s) && ProducerEnabled(c, s, step)
    ensures Inv(c, ProducerAfter(c, s, step))
  {
    hide Sources, Flow, Results, Gating, Consumers, ProducerEnabled, ProducerAfter;
    ProducerKeepsData(c, s, step);
    ProducerKeepsControl(c, s, step);
  }

  lemma GpgKeepsData(c: Setup, s: State, step: GpgStep)
    requires Inv(c, s) && GpgEnabled(c, s, step)
    ensures Sources(c, GpgAfter(c, s, step)) && Flow(c, GpgAfter(c, s, step))
  {
    hide Consumers;
  }

  lemma GpgKeepsControl(c: Setup, s: State, step: GpgStep)
    requires Inv(c, s) && GpgEnabled(c, s, step)
    ensures Results(c, GpgAfter(c, s, step)) && Gating(c, GpgAfter(c, s, step)) && Consumers(GpgAfter(c, s, step))
  {
  }

  lemma GpgKeeps(c: Setup, s: State, step: GpgStep)
    requires Inv(c, s) && GpgEnabled(c, s, step)
    ensures Inv(c, GpgAfter(c, s, step))
  {
    hide Sources, Flow, Results, Gating, Consumers, GpgEnabled, GpgAfter;
    GpgKeepsData(c, s, step);
    GpgKeepsControl(c, s, step);
  }

  lemma CopierWritesData(c: Setup, s: State, n: nat)
    requires Sources(c, s) && Flow(c, s) && CopierEnabled(c, s, CopierWrites(n))
    ensures Sources(c, CopierAfter(c, s, CopierWrites(n))) && Flow(c, CopierAfter(c, s, CopierWrites(n)))
  {
    var k := s.copier;
    assert k.buf == k.buf[..n] + k.buf[n..];
    Assoc(k.relayed, k.buf[..n], k.buf[n..]);
    assert s.upload.received + [] == s.upload.received;
  }

  lemma CopierKeepsData(c: Setup, s: State, step: CopierStep)
    requires Inv(c, s) && CopierEnabled(c, s, step)
    ensures Sources(c, CopierAfter(c, s, step)) && Flow(c, CopierAfter(c, s, step))
  {
    hide Sources, Flow, Results, Consumers, CopierAfter;
    if step.CopierWrites? { CopierWritesData(c, s, step.n); } else { CopierStopsData(c, s, step); }
  }

  lemma CopierStopsData(c: Setup, s: State, step: CopierStep)
    requires Inv(c, s) && CopierEnabled(c, s, step) && !step.CopierWrites?
    ensures Sources(c, CopierAfter(c, s, step)) && Flow(c, CopierAfter(c, s, step))
  {
    hide Gating, Consumers;
  }

  lemma CopierKeepsControl(c: Setup, s: State, step: CopierStep)
    requires Inv(c, s) && CopierEnabled(c, s, step)
    ensures Results(c, CopierAfter(c, s, step)) && Gating(c, CopierAfter(c, s, step))
      && Consumers(CopierAfter(c, s, step))
  {
  }

  lemma CopierKeeps(c: Setup, s: State, step: CopierStep)
    requires Inv(c, s) && CopierEnabled(c, s, step)
    ensures Inv(c, CopierAfter(c, s, step))
  {
    hide Sources, Flow, Results, Gating, Consumers, CopierEnabled, CopierAfter;
    CopierKeepsData(c, s, step);
    CopierKeepsControl(c, s, step);
  }

  lemma JoinKeepsData(c: Setup, s: State, step: JoinStep)
    requires Inv(c, s) && JoinEnabled(c, s, step)
    ensures Sources(c, JoinAfter(c, s, step)) && Flow(c, JoinAfter(c, s, step))
  {
    hide Results, Consumers;
  }

  lemma JoinKeepsControl(c: Setup, s: State, step: JoinStep)
    requires Inv(c, s) && JoinEnabled(c, s, step)
    ensures Results(c, JoinAfter(c, s, step)) && Gating(c, JoinAfter(c, s, step)) && Consumers(JoinAfter(c, s, step))
  {
    hide Flow;
  }

  lemma JoinKeeps(c: Setup, s: State, step: JoinStep)
    requires Inv(c, s) && JoinEnabled(c, s, step)
    ensures Inv(c, JoinAfter(c, s, step))
  {
    hide Sources, Flow, Results, Gating, Consumers, JoinEnabled, JoinAfter;
    JoinKeepsData(c, s, step);
    JoinKeepsControl(c, s, step);
  }

  lemma UploadKeepsData(c: Setup, s: State, step: UploadStep)
    requires Inv(c, s) && UploadEnabled(c, s, step)
    ensures Sources(c, UploadAfter(c, s, step)) && Flow(c, UploadAfter(c, s, step))
  {
    hide Inv, Sources, Flow, UploadEnabled, UploadAfter;
    if step.SdkReads? { SdkReadsData(c, s, step); } else { UploadMovesData(c, s, step); }
  }

  lemma SdkReadsData(c: Setup, s: State, step: UploadStep)
    requires Inv(c, s) && UploadEnabled(c, s, step) && step.SdkReads?
    ensures Sources(c, UploadAfter(c, s, step)) && Flow(c, UploadAfter(c, s, step))
  {
    hide Results, Gating, Consumers;
    var n := step.n;
    assert s.pipe.pending == s.pipe.pending[..n] + s.pipe.pending[n..];
    Assoc(s.upload.received, s.pipe.pending[..n], s.pipe.pending[n..]);
  }

  lemma UploadMovesData(c: Setup, s: State, step: UploadStep)
    requires Inv(c, s) && UploadEnabled(c, s, step) && !step.SdkReads?
    ensures Sources(c, UploadAfter(c, s, step)) && Flow(c, UploadAfter(c, s, step))
  {
    hide Results, Gating, Consumers;
  }

  lemma UploadKeepsControl(c: Setup, s: State, step: UploadStep)
    requires Inv(c, s) && UploadEnabled(c, s, step)
    ensures Results(c, UploadAfter(c, s, step)) && Gating(c, UploadAfter(c, s, step))
      && Consumers(UploadAfter(c, s, step))
  {
    hide Sources, Flow;
  }

  lemma UploadKeeps(c: Setup, s: State, step: UploadStep)
    requires Inv(c, s) && UploadEnabled(c, s, step)
    ensures Inv(c, UploadAfter(c, s, step))
  {
    hide Sources, Flow, Results, Gating, Consumers, UploadEnabled, UploadAfter;
    UploadKeepsData(c, s, step);
    UploadKeepsControl(c, s, step);
  }

  lemma MainKeepsData(c: Setup, s: State, step: MainStep)
    requires Inv(c, s) && MainEnabled(s, step)
    ensures Sources(c, MainAfter(s, step)) && Flow(c, MainAfter(s, step))
  {
    hide Gating, Consumers;
  }

  lemma MainKeepsControl(c: Setup, s: State, step: MainStep)
    requires Inv(c, s) && MainEnabled(s, step)
    ensures Results(c, MainAfter(s, step)) && Gating(c, MainAfter(s, step)) && Consumers(MainAfter(s, step))
  {
    hide Sources, Flow;
  }

  lemma MainKeeps(c: Setup, s: State, step: MainStep)
    requires Inv(c, s) && MainEnabled(s, step)
    ensures Inv(c, MainAfter(s, step))
  {
    hide Sources, Flow, Results, Gating, Consumers, MainEnabled, MainAfter;
    MainKeepsData(c, s, step);
    MainKeepsControl(c, s, step);
  }

  lemma StepKeeps(c: Setup, s: State, step: Step)
    requires Inv(c, s) && Enabled(c, s, step)
    ensures Inv(c, After(c, s, step))
  {
    match step
    case Around(e) => EnvKeeps(c, s, e);
    case Produce(p) => ProducerKeeps(c, s, p);
    case Encrypt(g) => GpgKeeps(c, s, g);
    case Copy(k) => CopierKeeps(c, s, k);
    case Join(j) => JoinKeeps(c, s, j);
    case Send(u) => UploadKeeps(c, s, u);
    case Lead(m) => MainKeeps(c, s, m);
  }

  lemma {:induction false} ReachableInv(c: Setup, steps: seq<Step>)
    requires Execute(c, steps).Some?
    ensures Inv(c, Execute(c, steps).value)
  {
    if steps != [] {
      var last := |steps| - 1;
      ReachableInv(c, steps[..last]);
      StepKeeps(c, Execute(c, steps[..last]).value, steps[last]);
    }
  }

  // ---- Publish safety ---------------------------------------------------------------------

  // The one object a backup may publish.
  function Object(c: Setup): text { if c.encrypted then c.cipher(c.bundle) else c.bundle }

  // Every stage succeeded: the producer returned nil with its footer out, and gpg exited
  // successfully with its output copied.
  ghost predicate AllStagesSucceeded(c: Setup, s: State) {
    && s.producer.written == c.bundle && !s.producer.broken
    && s.producer.phase == (if c.encrypted then Ended(true) else Returned(true))
    && (c.encrypted ==> s.gpg.phase == Exited(true) && s.gpg.consumed == c.bundle && s.copier.phase == Stopped(true))
  }

  lemma EofMeansComplete(c: Setup, s: State)
    requires Inv(c, s) && s.pipe.writeEnd.Eof?
    ensures AllStagesSucceeded(c, s) && s.upload.received == Object(c)
  {
    assert s.outer.ok;
  }

  // In every interleaving, whatever fails: an object that becomes visible under the key is
  // the complete one, and every stage behind it succeeded.
  lemma PublishSafety(c: Setup, steps: seq<Step>)
    requires Execute(c, steps).Some?
    ensures var s := Execute(c, steps).value;
            s.upload.published.Some? ==> s.upload.published.value == Object(c) && AllStagesSucceeded(c, s)
  {
    ReachableInv(c, steps);
    var s := Execute(c, steps).value;
    if s.upload.published.Some? { EofMeansComplete(c, s); }
  }

  // The SDK reads EOF only behind the last byte of the complete object. In particular a
  // stream whose producer or gpg failed, or that was cut short by a closer, never ends in EOF.
  lemma NoTruncatedStreamEnds(c: Setup, steps: seq<Step>)
    requires Execute(c, steps).Some?
    ensures var s := Execute(c, steps).value;
            s.upload.phase.AtEof? || Enabled(c, s, Send(SdkReadsEof)) ==>
              s.upload.received == Object(c) && AllStagesSucceeded(c, s)
  {
    ReachableInv(c, steps);
    var s := Execute(c, steps).value;
    if s.pipe.writeEnd.Eof? { EofMeansComplete(c, s); }
  }

  // backupDatabase returns nil exactly when Upload did, and then the key is published.
  lemma NilMeansPublished(c: Setup, steps: seq<Step>)
    requires Execute(c, steps).Some? && Execute(c, steps).value.main.Finished?
    ensures var s := Execute(c, steps).value;
            && s.main.ok == (s.upload.phase == UploadDone(true))
            && (s.main.ok ==> s.upload.published == Some(Object(c)) && AllStagesSucceeded(c, s))
  {
    ReachableInv(c, steps);
    var s := Execute(c, steps).value;
    if s.upload.phase.ok { EofMeansComplete(c, s); }
  }

  // One more step of a run.
  lemma Extend(c: Setup, steps: seq<Step>, step: Step) returns (longer: seq<Step>, s: State)
    requires Execute(c, steps).Some? && Enabled(c, Execute(c, steps).value, step)
    ensures Execute(c, longer) == Some(s) && s == After(c, Execute(c, steps).value, step)
  {
    longer := steps + [step];
    assert longer[..|longer| - 1] == steps;
    s := After(c, Execute(c, steps).value, step);
  }

  // ---- When the result is nil ------------------------------------------------------------

  // The k-th step is the return of Upload, with the SDK's success and nothing against it.
  predicate ReturnsClean(c: Setup, steps: seq<Step>, k: nat) {
    && k < |steps| && steps[k] == Send(UploadReturns)
    && Execute(c, steps[..k]).Some? && CleanAtReturn(Execute(c, steps[..k]).value)
  }

  predicate CleanAtReturn(s: State) { s.upload.phase == SdkDone(true) && !s.cancelled && !s.upload.partFailed }

  lemma ReturnStep(c: Setup, s: State, step: Step)
    requires Enabled(c, s, step)
    ensures After(c, s, step).upload.phase == UploadDone(true) <==>
              s.upload.phase == UploadDone(true) || (step == Send(UploadReturns) && CleanAtReturn(s))
  {
  }

  lemma {:induction false} CleanReturnExactly(c: Setup, steps: seq<Step>)
    requires Execute(c, steps).Some?
    ensures Execute(c, steps).value.upload.phase == UploadDone(true) <==> exists k: nat :: ReturnsClean(c, steps, k)
  {
    hide After, Enabled, CleanAtReturn;
    if steps != [] {
      var last := |steps| - 1;
      CleanReturnExactly(c, steps[..last]);
      ReturnStep(c, Execute(c, steps[..last]).value, steps[last]);
      forall k: nat | k < last ensures ReturnsClean(c, steps, k) <==> ReturnsClean(c, steps[..last], k) {
        assert steps[..last][..k] == steps[..k];
      }
      if k: nat :| ReturnsClean(c, steps[..last], k) { assert ReturnsClean(c, steps, k); }
      if steps[last] == Send(UploadReturns) && CleanAtReturn(Execute(c, steps[..last]).value) {
        assert ReturnsClean(c, steps, last);
      }
    }
  }

  // backupDatabase returns nil if and only if the SDK reported success and, when Upload came
  // to return, nobody had cancelled and no part had failed.
  lemma NilExactly(c: Setup, steps: seq<Step>)
    requires Execute(c, steps).Some? && Execute(c, steps).value.main.Finished?
    ensures Execute(c, steps).value.main.ok <==> exists k: nat :: ReturnsClean(c, steps, k)
  {
    hide After, Enabled, ReturnsClean;
    NilMeansPublished(c, steps);
    CleanReturnExactly(c, steps);
  }

  predicate PublishedUnfailed(s: State) { s.upload.published.Some? ==> !s.upload.partFailed }

  lemma PublishedStep(c: Setup, s: State, step: Step)
    requires Consumers(s) && PublishedUnfailed(s) && Enabled(c, s, step)
    ensures PublishedUnfailed(After(c, s, step))
  {
  }

  // What Upload finds when it returns, for an object that is visible.
  ghost predicate VisibleAtReturn(c: Setup, steps: seq<Step>, k: nat, answered: bool, cancelled: bool) {
    && k < |steps| && steps[k] == Send(UploadReturns) && Execute(c, steps[..k]).Some?
    && var s := Execute(c, steps[..k]).value;
    s.upload.published.Some? && s.upload.phase == SdkDone(answered) && s.cancelled == cancelled && !s.upload.partFailed
  }

  lemma ReachableConsumers(c: Setup, steps: seq<Step>)
    requires Execute(c, steps).Some?
    ensures Consumers(Execute(c, steps).value)
  {
    ReachableInv(c, steps);
  }

  lemma {:induction false} VisibleReturn(c: Setup, steps: seq<Step>) returns (k: nat, answered: bool, cancelled: bool)
    requires Execute(c, steps).Some?
    ensures PublishedUnfailed(Execute(c, steps).value)
    ensures var s := Execute(c, steps).value;
            s.upload.published.Some? && s.upload.phase.UploadDone? ==>
              VisibleAtReturn(c, steps, k, answered, cancelled) && s.upload.phase == UploadDone(answered && !cancelled)
  {
    hide After, Enabled, Inv;
    k, answered, cancelled := 0, false, false;
    if steps != [] {
      var last := |steps| - 1;
      var s := Execute(c, steps[..last]).value;
      ReachableConsumers(c, steps[..last]);
      k, answered, cancelled := VisibleReturn(c, steps[..last]);
      PublishedStep(c, s, steps[last]);
      ReturnsOnce(c, s, steps[last]);
      if s.upload.phase.UploadDone? {
        assert k < last ==> steps[..last][..k] == steps[..k];
      } else if steps[last] == Send(UploadReturns) && s.upload.phase.SdkDone? {
        k, answered, cancelled := last, s.upload.phase.ok, s.cancelled;
      }
    }
  }

  lemma ReturnsOnce(c: Setup, s: State, step: Step)
    requires Consumers(s) && Enabled(c, s, step)
    ensures var t := After(c, s, step);
      && (s.upload.phase.UploadDone? ==> t.upload == s.upload)
      && (!s.upload.phase.UploadDone? && t.upload.phase.UploadDone? && t.upload.published.Some? ==>
            && step == Send(UploadReturns) && s.upload.phase.SdkDone? && s.upload.published.Some?
            && t.upload.phase.ok == (s.upload.phase.ok && !s.cancelled && !s.upload.partFailed))
  {
  }

  // For a visible object: nil if and only if the SDK had reported success for it and the
  // context was not cancelled when Upload returned. Either failing, the object stays visible
  // although the result is an error.
  lemma PublishedNilExactly(c: Setup, steps: seq<Step>) returns (k: nat, answered: bool, cancelled: bool)
    requires Execute(c, steps).Some? && Execute(c, steps).value.main.Finished?
    requires Execute(c, steps).value.upload.published.Some?
    ensures VisibleAtReturn(c, steps, k, answered, cancelled)
    ensures Execute(c, steps).value.main.ok <==> answered && !cancelled
  {
    hide After, Enabled, VisibleAtReturn;
    ReachableInv(c, steps);
    NilMeansPublished(c, steps);
    k, answered, cancelled := VisibleReturn(c, steps);
  }

  // A context that is cancelled before Upload begins: nothing is sent, and nothing appears.
  lemma {:induction false} CancelledBeforeUpload(c: Setup, steps: seq<Step>, k: nat)
    requires Execute(c, steps).Some? && k < |steps| && steps[k] == Send(EnterUpload)
    requires Execute(c, steps[..k]).Some? && Execute(c, steps[..k]).value.cancelled
    ensures Execute(c, steps).value.upload.phase == UploadDone(false) && Execute(c, steps).value.upload.published.None?
  {
    hide After, Enabled, Inv;
    var last := |steps| - 1;
    var before := steps[..last];
    ReachableConsumers(c, before);
    if k < last {
      assert before[..k] == steps[..k];
      CancelledBeforeUpload(c, before, k);
      ReturnsOnce(c, Execute(c, before).value, steps[last]);
    } else {
      NotEntered(c, Execute(c, before).value);
    }
  }

  lemma NotEntered(c: Setup, s: State)
    requires Consumers(s) && Enabled(c, s, Send(EnterUpload)) && s.cancelled
    ensures After(c, s, Send(EnterUpload)).upload.phase == UploadDone(false)
      && After(c, s, Send(EnterUpload)).upload.published.None?
  {
  }

  // A plain backup in which nothing goes wrong: up to the producer's result,
  lemma Production(c: Setup) returns (steps: seq<Step>, s: State)
    requires !c.encrypted && c.bundle != []
    ensures Execute(c, steps) == Some(s)
    ensures s == Init(c).(producer := Producer(Returned(true), c.bundle, 0, false),
                          upload := Upload(Reading, c.bundle, false, None))
  {
    s := Init(c);
    steps := [];
    steps, s := Extend(c, steps, Send(EnterUpload));
    steps, s := Extend(c, steps, Produce(BeginWrite(|c.bundle|)));
    steps, s := Extend(c, steps, Send(SdkReads(|c.bundle|, false)));
    steps, s := Extend(c, steps, Copy(PipeWriteReturns));
    steps, s := Extend(c, steps, Produce(ProducerReturns(true)));
  }

  // Just short of the SDK's answer.
  lemma PlainDelivery(c: Setup) returns (steps: seq<Step>, s: State)
    requires !c.encrypted && c.bundle != []
    ensures Execute(c, steps) == Some(s) && Delivering(c, s)
  {
    steps, s := Production(c);
    steps, s := Extend(c, steps, Join(PlainReturns));
    steps, s := Extend(c, steps, Join(OuterSignals));
    steps, s := Extend(c, steps, Send(SdkReadsEof));
  }

  predicate Delivering(c: Setup, s: State) {
    && s.upload == Upload(AtEof, Object(c), false, None) && !s.cancelled
    && s.outer == Signalled(true) && s.main.Uploading?
  }

  // An encrypted backup whose bundle and ciphertext fit the pipes: into gpg,
  lemma Feeding(c: Setup) returns (steps: seq<Step>, s: State)
    requires c.encrypted && 0 < |c.bundle| <= c.pipeRoom
    ensures Execute(c, steps) == Some(s)
    ensures s == Init(c).(producer := Producer(Ended(true), c.bundle, 0, false),
                          os := OsPipe(c.bundle, true, false),
                          gpg := Gpg(Running, [], false, []),
                          gate := Waiting)
  {
    s := Init(c);
    steps := [];
    steps, s := Extend(c, steps, Join(OpenPipe(true)));
    steps, s := Extend(c, steps, Encrypt(StartGpg(true)));
    steps, s := Extend(c, steps, Produce(BeginWrite(|c.bundle|)));
    steps, s := Extend(c, steps, Produce(OsAccepts(|c.bundle|)));
    steps, s := Extend(c, steps, Produce(ProducerReturns(true)));
    steps, s := Extend(c, steps, Produce(ProducerEnds));
  }

  // out of it and to the SDK,
  lemma Encrypting(c: Setup) returns (steps: seq<Step>, s: State)
    requires c.encrypted && 0 < |c.bundle| <= c.pipeRoom
    requires 0 < |c.cipher(c.bundle)| <= c.outRoom && |c.cipher(c.bundle)| <= c.gpgLimit
    ensures Execute(c, steps) == Some(s)
    ensures s == Init(c).(producer := Producer(Ended(true), c.bundle, 0, false),
                          os := OsPipe([], true, false),
                          gpg := Gpg(Exited(true), c.bundle, true, c.cipher(c.bundle)),
                          copier := Copier(Copying, c.cipher(c.bundle), []),
                          gate := Waiting)
  {
    hide Execute;
    steps, s := Feeding(c);
    assert s.os.buf[..|c.bundle|] == c.bundle && s.os.buf[|c.bundle|..] == [];
    steps, s := Extend(c, steps, Encrypt(GpgReads(|c.bundle|)));
    assert s.gpg.consumed == c.bundle;
    steps, s := Extend(c, steps, Encrypt(GpgReadsEof));
    steps, s := Extend(c, steps, Encrypt(GpgEmits(c.cipher(c.bundle))));
    assert s.gpg.emitted == c.cipher(c.bundle) && s.copier.buf == c.cipher(c.bundle);
    steps, s := Extend(c, steps, Encrypt(GpgExits(true)));
  }

  lemma Copied(c: Setup) returns (steps: seq<Step>, s: State)
    requires c.encrypted && 0 < |c.bundle| <= c.pipeRoom
    requires 0 < |c.cipher(c.bundle)| <= c.outRoom && |c.cipher(c.bundle)| <= c.gpgLimit
    ensures Execute(c, steps) == Some(s)
    ensures s == Init(c).(producer := Producer(Ended(true), c.bundle, 0, false),
                          os := OsPipe([], true, false),
                          gpg := Gpg(Exited(true), c.bundle, true, c.cipher(c.bundle)),
                          copier := Copier(Stopped(true), [], c.cipher(c.bundle)),
                          gate := Waiting,
                          upload := Upload(Reading, c.cipher(c.bundle), false, None))
  {
    hide Execute;
    var m := |c.cipher(c.bundle)|;
    steps, s := Encrypting(c);
    assert s.copier.buf[..m] == s.copier.buf && s.copier.buf[m..] == [];
    steps, s := Extend(c, steps, Send(EnterUpload));
    steps, s := Extend(c, steps, Copy(CopierWrites(m)));
    steps, s := Extend(c, steps, Send(SdkReads(m, false)));
    steps, s := Extend(c, steps, Copy(PipeWriteReturns));
    steps, s := Extend(c, steps, Copy(CopierStops));
  }

  // and through the joining of both results.
  lemma EncryptedDelivery(c: Setup) returns (steps: seq<Step>, s: State)
    requires c.encrypted && 0 < |c.bundle| <= c.pipeRoom
    requires 0 < |c.cipher(c.bundle)| <= c.outRoom && |c.cipher(c.bundle)| <= c.gpgLimit
    ensures Execute(c, steps) == Some(s) && Delivering(c, s)
  {
    hide Execute;
    steps, s := Copied(c);
    steps, s := Extend(c, steps, Join(RunReturns(true)));
    steps, s := Extend(c, steps, Join(GateCancels));
    steps, s := Extend(c, steps, Join(GateClosesReader));
    steps, s := Extend(c, steps, Join(GateClosesWriter));
    steps, s := Extend(c, steps, Join(GateCollects));
    steps, s := Extend(c, steps, Join(OuterSignals));
    steps, s := Extend(c, steps, Send(SdkReadsEof));
  }

  // With or without encryption a visible object comes with either result: nil in one run, and
  // in another an error, because the caller cancels between the completed upload and its
  // return. The sizes make room for one write into each pipe.
  lemma PublishedWithEitherResult(c: Setup) returns (nilRun: seq<Step>, errorRun: seq<Step>)
    requires c.bundle != []
    requires c.encrypted ==>
      |c.bundle| <= c.pipeRoom && 0 < |c.cipher(c.bundle)| <= c.outRoom && |c.cipher(c.bundle)| <= c.gpgLimit
    ensures Execute(c, nilRun).Some? && Execute(c, errorRun).Some?
    ensures Execute(c, nilRun).value.main == Finished(true)
    ensures Execute(c, nilRun).value.upload.published == Some(Object(c))
    ensures Execute(c, errorRun).value.main == Finished(false)
    ensures Execute(c, errorRun).value.upload.published == Some(Object(c))
  {
    var steps, s;
    if c.encrypted { steps, s := EncryptedDelivery(c); } else { steps, s := PlainDelivery(c); }
    steps, s := Extend(c, steps, Send(SdkCompletes(true, true)));
    nilRun := NilEnding(c, steps, s);
    errorRun := ErrorEnding(c, steps, s);
  }

  lemma NilEnding(c: Setup, before: seq<Step>, t: State) returns (steps: seq<Step>)
    requires Execute(c, before) == Some(t) && t.upload == Upload(SdkDone(true), Object(c), false, Some(Object(c)))
    requires !t.cancelled && t.outer == Signalled(true) && t.main.Uploading?
    ensures Execute(c, steps).Some? && Execute(c, steps).value.main == Finished(true)
    ensures Execute(c, steps).value.upload.published == Some(Object(c))
  {
    var s;
    steps, s := Extend(c, before, Send(UploadReturns));
    steps, s := Extend(c, steps, Join(OuterSends));
    steps, s := Extend(c, steps, Lead(MainTakesUpload));
    steps, s := Extend(c, steps, Lead(MainReceives));
  }

  // It also comes with an error when the answer to its completion is lost.
  lemma PublishedUnanswered(c: Setup) returns (steps: seq<Step>)
    requires c.bundle != []
    requires c.encrypted ==>
      |c.bundle| <= c.pipeRoom && 0 < |c.cipher(c.bundle)| <= c.outRoom && |c.cipher(c.bundle)| <= c.gpgLimit
    ensures Execute(c, steps).Some? && Execute(c, steps).value.main == Finished(false)
    ensures Execute(c, steps).value.upload == Upload(UploadDone(false), Object(c), false, Some(Object(c)))
  {
    var s;
    if c.encrypted { steps, s := EncryptedDelivery(c); } else { steps, s := PlainDelivery(c); }
    steps := UnansweredEnding(c, steps, s);
  }

  lemma UnansweredEnding(c: Setup, before: seq<Step>, t: State) returns (steps: seq<Step>)
    requires Execute(c, before) == Some(t) && Delivering(c, t)
    ensures Execute(c, steps).Some? && Execute(c, steps).value.main == Finished(false)
    ensures Execute(c, steps).value.upload == Upload(UploadDone(false), Object(c), false, Some(Object(c)))
  {
    var s;
    steps, s := Extend(c, before, Send(SdkCompletes(false, true)));
    steps, s := Extend(c, steps, Send(UploadReturns));
    steps, s := Failing(c, steps, s);
  }

  // Once Upload has failed and the results are joined, the rest of a run is determined.
  lemma Failing(c: Setup, before: seq<Step>, t: State) returns (steps: seq<Step>, s: State)
    requires Execute(c, before) == Some(t) && t.upload.phase == UploadDone(false)
    requires t.outer.Signalled? && t.main.Uploading?
    ensures Execute(c, steps) == Some(s) && s.main == Finished(false)
    ensures s.upload == t.upload && s.producer == t.producer && s.gpg == t.gpg && s.copier == t.copier
  {
    steps, s := Extend(c, before, Join(OuterSends));
    steps, s := Extend(c, steps, Lead(MainTakesUpload));
    steps, s := Extend(c, steps, Lead(MainCloses));
    steps, s := Extend(c, steps, Lead(MainReceives));
  }

  lemma ErrorEnding(c: Setup, before: seq<Step>, t: State) returns (steps: seq<Step>)
    requires Execute(c, before) == Some(t) && t.upload == Upload(SdkDone(true), Object(c), false, Some(Object(c)))
    requires !t.cancelled && t.outer == Signalled(true) && t.main.Uploading?
    ensures Execute(c, steps).Some? && Execute(c, steps).value.main == Finished(false)
    ensures Execute(c, steps).value.upload.published == Some(Object(c))
  {
    var s;
    steps, s := Extend(c, before, Around(CallerCancels));
    steps, s := Extend(c, steps, Send(UploadReturns));
    steps, s := Extend(c, steps, Join(OuterSends));
    steps, s := Extend(c, steps, Lead(MainTakesUpload));
    steps, s := Extend(c, steps, Lead(MainCloses));
    steps, s := Extend(c, steps, Lead(MainReceives));
  }

  // ---- Failures happen -------------------------------------------------------------------------

  // A run that ends in an error without an object.
  ghost predicate Fails(c: Setup, steps: seq<Step>) {
    && Execute(c, steps).Some? && Execute(c, steps).value.main == Finished(false)
    && Execute(c, steps).value.upload.published.None?
  }

  // A part that cannot be sent reaches a producer that is blocked on the pipe,
  lemma BlockedProducer(c: Setup) returns (steps: seq<Step>, s: State)
    requires !c.encrypted && c.bundle != []
    ensures Execute(c, steps) == Some(s)
    ensures s == Init(c).(producer := Producer(Producing, c.bundle, 0, true),
                          pipe := IoPipe([], false, true, Open),
                          upload := Upload(Reading, [], true, None))
  {
    s := Init(c);
    steps := [];
    steps, s := Extend(c, steps, Send(EnterUpload));
    steps, s := Extend(c, steps, Produce(BeginWrite(|c.bundle|)));
    steps, s := Extend(c, steps, Around(PartFails));
    steps, s := Extend(c, steps, Around(FireBodyCloser));
    steps, s := Extend(c, steps, Copy(PipeWriteFails));
  }

  lemma FailedPart(c: Setup) returns (steps: seq<Step>)
    requires !c.encrypted && c.bundle != []
    ensures Fails(c, steps) && Execute(c, steps).value.upload.partFailed && Execute(c, steps).value.producer.broken
  {
    hide Execute;
    var s;
    steps, s := BlockedProducer(c);
    steps, s := Extend(c, steps, Produce(ProducerReturns(false)));
    steps, s := Extend(c, steps, Join(PlainReturns));
    steps, s := Extend(c, steps, Join(OuterSignals));
    steps, s := Extend(c, steps, Send(SdkReadFails));
    steps, s := Extend(c, steps, Send(UploadReturns));
    steps, s := Failing(c, steps, s);
  }

  // and so does the end of gpg, to one that is blocked on the pipe into it:
  lemma GpgGone(c: Setup) returns (steps: seq<Step>, s: State)
    requires c.encrypted && c.bundle != []
    ensures Execute(c, steps) == Some(s)
    ensures s == Init(c).(producer := Producer(Producing, [], 1, false),
                          gpg := Gpg(Exited(false), [], false, []), copier := Copier(Stopped(true), [], []),
                          inner := true, gate := ClosingReader(false))
  {
    s := Init(c);
    steps := [];
    steps, s := Extend(c, steps, Join(OpenPipe(true)));
    steps, s := Extend(c, steps, Encrypt(StartGpg(true)));
    steps, s := Extend(c, steps, Produce(BeginWrite(1)));
    steps, s := Extend(c, steps, Encrypt(GpgExits(false)));
    steps, s := Extend(c, steps, Copy(CopierStops));
    steps, s := Extend(c, steps, Join(RunReturns(false)));
    steps, s := Extend(c, steps, Join(GateCancels));
  }

  lemma GpgCollected(c: Setup) returns (steps: seq<Step>, s: State)
    requires c.encrypted && c.bundle != []
    ensures Execute(c, steps) == Some(s) && s.outer == Joined(false) && s.main.Uploading?
    ensures s.upload == Init(c).upload && s.producer.broken && s.gpg.phase == Exited(false) && !s.cancelled
    ensures !s.pipe.readerClosed
  {
    hide Execute;
    steps, s := GpgGone(c);
    steps, s := Extend(c, steps, Around(FireWriterCloser));
    steps, s := Extend(c, steps, Produce(WriteFails));
    steps, s := Extend(c, steps, Join(GateClosesReader));
    steps, s := Extend(c, steps, Join(GateClosesWriter));
    steps, s := Extend(c, steps, Produce(ProducerReturns(false)));
    steps, s := Extend(c, steps, Produce(ProducerEnds));
    steps, s := Extend(c, steps, Join(GateCollects));
  }

  lemma FailedGpg(c: Setup) returns (steps: seq<Step>)
    requires c.encrypted && c.bundle != []
    ensures Fails(c, steps) && Execute(c, steps).value.gpg.phase == Exited(false)
    ensures Execute(c, steps).value.producer.broken && !Execute(c, steps).value.upload.partFailed
  {
    hide Execute;
    var s;
    steps, s := GpgCollected(c);
    steps, s := Extend(c, steps, Join(OuterSignals));
    steps, s := Extend(c, steps, Send(EnterUpload));
    steps, s := Extend(c, steps, Send(SdkReadFails));
    steps, s := Extend(c, steps, Send(UploadReturns));
    steps, s := Failing(c, steps, s);
  }

  // Neither the pipe nor gpg need come into being:
  lemma FailedOpen(c: Setup) returns (steps: seq<Step>)
    requires c.encrypted
    ensures Fails(c, steps) && Execute(c, steps).value.producer.phase == Idle
  {
    var s := Init(c);
    steps := [];
    steps, s := Extend(c, steps, Join(OpenPipe(false)));
    steps, s := Extend(c, steps, Join(OuterSignals));
    steps, s := Extend(c, steps, Send(EnterUpload));
    steps, s := Extend(c, steps, Send(SdkReadFails));
    steps, s := Extend(c, steps, Send(UploadReturns));
    steps, s := Failing(c, steps, s);
  }

  lemma GpgNotStarted(c: Setup) returns (steps: seq<Step>, s: State)
    requires c.encrypted
    ensures Execute(c, steps) == Some(s) && s.outer == Joined(false) && s.main.Uploading?
    ensures s.upload == Init(c).upload && s.producer.written == [] && s.gpg.phase == Exited(false) && !s.cancelled
    ensures !s.pipe.readerClosed
  {
    hide Execute;
    s := Init(c);
    steps := [];
    assert Execute(c, steps) == Some(s) by { AtStart(c); }
    steps, s := Extend(c, steps, Join(OpenPipe(true)));
    steps, s := Extend(c, steps, Encrypt(StartGpg(false)));
    steps, s := Extend(c, steps, Join(RunReturns(false)));
    steps, s := Extend(c, steps, Join(GateCancels));
    steps, s := Extend(c, steps, Join(GateClosesReader));
    steps, s := Extend(c, steps, Join(GateClosesWriter));
    steps, s := Extend(c, steps, Produce(ProducerReturns(false)));
    steps, s := Extend(c, steps, Produce(ProducerEnds));
    steps, s := Extend(c, steps, Join(GateCollects));
  }

  lemma AtStart(c: Setup)
    ensures Execute(c, []) == Some(Init(c))
  {
  }

  lemma FailedStart(c: Setup) returns (steps: seq<Step>)
    requires c.encrypted
    ensures Fails(c, steps) && Execute(c, steps).value.gpg.phase == Exited(false)
    ensures Execute(c, steps).value.producer.written == []
  {
    hide Execute;
    var s;
    steps, s := GpgNotStarted(c);
    steps, s := Extend(c, steps, Join(OuterSignals));
    steps, s := Extend(c, steps, Send(EnterUpload));
    steps, s := Extend(c, steps, Send(SdkReadFails));
    steps, s := Extend(c, steps, Send(UploadReturns));
    steps, s := Failing(c, steps, s);
  }

  // A cancellation reaches a copier that is blocked on the pipe to an SDK that is sending.
  lemma BlockedCopier(c: Setup) returns (steps: seq<Step>, s: State)
    requires c.encrypted && 0 < |c.bundle| <= c.pipeRoom && c.outRoom >= 2 && c.gpgLimit >= 2
    ensures Execute(c, steps) == Some(s) && s.gpg.phase.Running? && s.producer.phase == Ended(true) && s.gate == Waiting
    ensures s.upload == Upload(Sending, "x", false, None) && s.cancelled && s.pipe.readerClosed && s.pipe.writeEnd.Open?
    ensures s.outer == Working && s.main.Uploading? && s.copier.phase == Stopped(false) && !s.pipe.busy
  {
    hide Execute;
    steps, s := Feeding(c);
    var out: text := "xy";
    steps, s := Extend(c, steps, Send(EnterUpload));
    steps, s := Extend(c, steps, Encrypt(GpgEmits(out)));
    assert s.copier.buf == out;
    steps, s := Extend(c, steps, Copy(CopierWrites(2)));
    assert s.pipe.pending == out && out[..1] == "x" && out[1..] == "y";
    steps, s := Extend(c, steps, Send(SdkReads(1, true)));
    assert s.upload.received == "x";
    steps, s := Extend(c, steps, Around(CallerCancels));
    steps, s := Extend(c, steps, Around(FireReaderCloser));
    steps, s := Extend(c, steps, Copy(PipeWriteFails));
  }

  lemma CancelledBackup(c: Setup) returns (steps: seq<Step>)
    requires c.encrypted && 0 < |c.bundle| <= c.pipeRoom && c.outRoom >= 2 && c.gpgLimit >= 2
    ensures Fails(c, steps) && Execute(c, steps).value.producer.phase == Ended(true)
    ensures Execute(c, steps).value.copier.phase == Stopped(false)
  {
    hide Execute;
    var s;
    steps, s := BlockedCopier(c);
    steps, s := Extend(c, steps, Encrypt(GpgExits(false)));
    steps, s := Extend(c, steps, Join(RunReturns(false)));
    steps, s := Extend(c, steps, Join(GateCancels));
    steps, s := Extend(c, steps, Join(GateClosesReader));
    steps, s := Extend(c, steps, Join(GateClosesWriter));
    steps, s := Extend(c, steps, Join(GateCollects));
    steps, s := CancelledEnding(c, steps, s);
  }

  lemma CancelledEnding(c: Setup, before: seq<Step>, t: State) returns (steps: seq<Step>, s: State)
    requires Execute(c, before) == Some(t) && t.upload == Upload(Sending, "x", false, None)
    requires t.outer == Joined(false) && t.main.Uploading?
    ensures Execute(c, steps) == Some(s) && s.main == Finished(false) && s.upload.published.None?
    ensures s.producer == t.producer && s.copier == t.copier
  {
    hide Execute;
    steps, s := Extend(c, before, Join(OuterSignals));
    steps, s := Extend(c, steps, Send(SdkGivesUp));
    steps, s := Extend(c, steps, Send(UploadReturns));
    steps, s := Failing(c, steps, s);
  }
}
