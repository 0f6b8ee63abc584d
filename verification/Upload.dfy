/** The chunked upload of WebSocketClient_Custom (websocket_custom.js): the client, the channels, and the
    acknowledging server as one transition system. */
module Upload {
  import opened Options

  type Byte = bv8

  const CHUNK_SIZE: nat := 64 * 1024

  /** What the client sends. */
  datatype Frame = Start(name: string, size: nat) | Chunk(bytes: seq<Byte>) | Complete

  /** What the server sends. Other stands for chat and download messages. */
  datatype Reply = ReceivedChunk(num: nat) | ReceivedFull | AuditComplete | AuditFailed | Other

  /** The fields of the client that the upload uses. `pending` are the slices whose FileReader has been
      started and has not fired yet. */
  datatype Client = Client(file: Option<seq<Byte>>, offset: nat, chunkSize: nat, pending: seq<seq<Byte>>)

  function Min(a: nat, b: nat): nat {
    if a <= b then a else b
  }

  // ---------------------------------------------------------------- the client

  /** utilSendNextChunk: asks for the next slice, or tells the server that all slices are sent. */
  function SendNextChunk(c: Client): (Client, seq<Frame>)
    requires c.file.Some?
  {
    var file := c.file.value;
    if c.offset >= |file| then (c, [Complete])
    else (c.(pending := c.pending + [file[c.offset..Min(c.offset + c.chunkSize, |file|)]]), [])
  }

  function SendFile(c: Client, file: seq<Byte>, name: string): (Client, seq<Frame>) {
    var r := SendNextChunk(c.(file := Some(file), offset := 0, chunkSize := CHUNK_SIZE));
    (r.0, [Start(name, |file|)] + r.1)
  }

  /** reader.onload of the reader that fires. */
  function OnLoad(c: Client): (Client, seq<Frame>)
    requires c.pending != []
  {
    (c.(pending := c.pending[1..], offset := c.offset + c.chunkSize), [Chunk(c.pending[0])])
  }

  function Uploaded(c: Client): Client {
    c.(offset := 0, file := None, chunkSize := CHUNK_SIZE)
  }

  /** onTextResponse; None is the TypeError of reading the size of a null file. */
  function OnReply(c: Client, reply: Reply): Option<(Client, seq<Frame>)> {
    match reply
    case ReceivedChunk(_) => if c.file.None? then None else Some(SendNextChunk(c))
    case AuditComplete => Some((Uploaded(c), []))
    case AuditFailed => Some((Uploaded(c), []))
    case _ => Some((c, []))
  }

  // ---------------------------------------------------------------- the system

  /** `stored` is what the server has written for this upload, `open` whether its file is open. `sent` is
      the history of all frames of this upload. */
  datatype System = System(client: Client, toServer: seq<Frame>, toClient: seq<Reply>,
                           stored: seq<Byte>, open: bool, sent: seq<Frame>)

  ghost predicate Idle(s: System) {
    s.client.pending == [] && s.toServer == [] && s.toClient == [] && !s.open
  }

  /** A file is chosen while nothing of an earlier upload is under way. */
  function Begin(s: System, file: seq<Byte>, name: string): System {
    var (client, frames) := SendFile(s.client, file, name);
    System(client, s.toServer + frames, s.toClient, [], false, frames)
  }

  /** The server acknowledges every binary frame once, with the size stored so far. On completion it closes
      its file, if a chunk ever opened one, and reports the outcome of the audit. */
  ghost predicate ServerStep(s: System, s': System) {
    && s.toServer != []
    && match s.toServer[0]
       case Start(_, _) => s' == s.(toServer := s.toServer[1..])
       case Chunk(bytes) =>
         s' == s.(toServer := s.toServer[1..], stored := s.stored + bytes, open := true,
                  toClient := s.toClient + [ReceivedChunk(|s.stored| + |bytes|)])
       case Complete =>
         if s.open then
           exists audit :: (audit == AuditComplete || audit == AuditFailed)
             && s' == s.(toServer := s.toServer[1..], open := false, toClient := s.toClient + [audit])
         else s' == s.(toServer := s.toServer[1..])
  }

  ghost predicate ReadStep(s: System, s': System) {
    && s.client.pending != []
    && var (client, frames) := OnLoad(s.client);
       s' == s.(client := client, toServer := s.toServer + frames, sent := s.sent + frames)
  }

  ghost predicate ReplyStep(s: System, s': System) {
    && s.toClient != []
    && match OnReply(s.client, s.toClient[0])
       case None => false
       case Some(r) => s' == s.(client := r.0, toServer := s.toServer + r.1, toClient := s.toClient[1..],
                                sent := s.sent + r.1)
  }

  ghost predicate Next(s: System, s': System) {
    ServerStep(s, s') || ReadStep(s, s') || ReplyStep(s, s')
  }

  // ---------------------------------------------------------------- the invariant

  function Payload(frames: seq<Frame>): seq<Byte> {
    if frames == [] then []
    else
      Payload(frames[..|frames| - 1])
      + match frames[|frames| - 1] { case Chunk(bytes) => bytes case _ => [] }
  }

  function Rounds(frames: seq<Frame>): nat {
    if frames == [] then 0 else Rounds(frames[..|frames| - 1]) + if frames[|frames| - 1].Chunk? then 1 else 0
  }

  function Completions(frames: seq<Frame>): nat {
    if frames == [] then 0 else Completions(frames[..|frames| - 1]) + if frames[|frames| - 1].Complete? then 1 else 0
  }

  datatype Phase = Reading | ChunkInFlight | AckInFlight | Completing | Auditing | Finished

  /** The start frame may still be on its way, in front of everything else. */
  ghost predicate AfterStart(toServer: seq<Frame>, rest: seq<Frame>, name: string, size: nat) {
    toServer == rest || toServer == [Start(name, size)] + rest
  }

  ghost predicate InPhase(s: System, file: seq<Byte>, name: string, phase: Phase) {
    var c := s.client;
    var reached := Min(c.offset, |file|);
    match phase
    case Reading =>
      && c.file == Some(file) && c.offset < |file|
      && c.pending == [file[c.offset..Min(c.offset + c.chunkSize, |file|)]]
      && AfterStart(s.toServer, [], name, |file|) && s.toClient == []
      && s.stored == file[..reached]
      && (s.open <==> 0 < c.offset)
    case ChunkInFlight =>
      && c.file == Some(file) && c.pending == [] && s.toClient == []
      && 0 < c.offset < |file| + c.chunkSize && c.chunkSize <= c.offset
      && AfterStart(s.toServer, [Chunk(file[c.offset - c.chunkSize..reached])], name, |file|)
      && s.stored == file[..c.offset - c.chunkSize]
    case AckInFlight =>
      && c.file == Some(file) && c.pending == [] && s.toServer == []
      && 0 < c.offset < |file| + c.chunkSize
      && s.toClient == [ReceivedChunk(reached)] && s.stored == file[..reached] && s.open
    case Completing =>
      && c.file == Some(file) && c.pending == [] && s.toClient == []
      && |file| <= c.offset
      && AfterStart(s.toServer, [Complete], name, |file|)
      && s.stored == file && (s.open <==> file != [])
    case Auditing =>
      && c.file == Some(file) && c.pending == [] && s.toServer == []
      && |file| <= c.offset
      && (if file == [] then s.toClient == [] else s.toClient == [AuditComplete] || s.toClient == [AuditFailed])
      && s.stored == file && !s.open
    case Finished =>
      && c.file == None && c.pending == [] && s.toServer == [] && s.toClient == [] && file != []
      && s.stored == file && !s.open
  }

  ghost predicate Sending(phase: Phase) {
    phase == Reading || phase == ChunkInFlight || phase == AckInFlight
  }

  /** What the history of frames says. */
  ghost predicate History(s: System, file: seq<Byte>, name: string, phase: Phase) {
    && s.sent != [] && s.sent[0] == Start(name, |file|)
    && Completions(s.sent) == (if Sending(phase) then 0 else 1)
    && (Sending(phase) || phase == Completing || phase == Auditing ==>
          s.client.offset == Rounds(s.sent) * CHUNK_SIZE && s.client.chunkSize == CHUNK_SIZE)
    && Payload(s.sent) == (if Sending(phase) then file[..Min(s.client.offset, |file|)] else file)
    && (!Sending(phase) ==> Rounds(s.sent) == RoundsNeeded(|file|))
    && (Sending(phase) ==> s.client.offset < |file| + CHUNK_SIZE)
  }

  /** The size divided by the chunk size, rounded up. */
  function RoundsNeeded(size: nat): nat {
    (size + CHUNK_SIZE - 1) / CHUNK_SIZE
  }

  /** 64 KiB to a chunk. */
  lemma RoundsOfSizes()
    ensures RoundsNeeded(0) == 0 && RoundsNeeded(1) == 1 && RoundsNeeded(65536) == 1 && RoundsNeeded(65537) == 2
  {
  }

  ghost predicate Inv(s: System, file: seq<Byte>, name: string) {
    exists phase :: InPhase(s, file, name, phase) && History(s, file, name, phase)
  }

  // ---------------------------------------------------------------- it holds along every run

  lemma BeginEstablishes(s: System, file: seq<Byte>, name: string)
    requires Idle(s)
    ensures Inv(Begin(s, file, name), file, name)
  {
    hide InPhase, History, Begin;
    if file == [] {
      BeginEmpty(s, name);
    } else {
      BeginReading(s, file, name);
    }
  }

  lemma OneFrame(name: string, size: nat)
    ensures var start := [Start(name, size)];
            Payload(start) == [] && Rounds(start) == 0 && Completions(start) == 0
  {
    NoFrames();
    FrameAppended([], Start(name, size));
    hide Payload, Rounds, Completions;
    assert [] + [Start(name, size)] == [Start(name, size)];
  }

  lemma BeginEmpty(s: System, name: string)
    requires Idle(s)
    ensures InPhase(Begin(s, [], name), [], name, Completing) && History(Begin(s, [], name), [], name, Completing)
  {
    BeginEmptyIs(s, name);
    hide Payload, Rounds, Completions, RoundsNeeded, Begin;
    var start := [Start(name, 0)];
    OneFrame(name, 0);
    FrameAppended(start, Complete);
    NeededIs(0, 0);
  }

  lemma BeginEmptyIs(s: System, name: string)
    requires Idle(s)
    ensures var frames := [Start(name, 0)] + [Complete];
            Begin(s, [], name) == System(Client(Some([]), 0, CHUNK_SIZE, []), frames, [], [], false, frames)
  {
    assert SendNextChunk(s.client.(file := Some([]), offset := 0, chunkSize := CHUNK_SIZE)).1 == [Complete];
    assert [] + ([Start(name, 0)] + [Complete]) == [Start(name, 0)] + [Complete];
  }

  lemma BeginReading(s: System, file: seq<Byte>, name: string)
    requires Idle(s) && file != []
    ensures InPhase(Begin(s, file, name), file, name, Reading) && History(Begin(s, file, name), file, name, Reading)
  {
    hide Payload, Rounds, Completions, RoundsNeeded;
    var s' := Begin(s, file, name);
    OneFrame(name, |file|);
    assert s'.toServer == [Start(name, |file|)] + [] && s'.sent == [Start(name, |file|)];
  }

  lemma NoFrames()
    ensures Payload([]) == [] && Rounds([]) == 0 && Completions([]) == 0
  {
  }

  lemma FrameAppended(frames: seq<Frame>, f: Frame)
    ensures Payload(frames + [f]) == Payload(frames) + match f { case Chunk(bytes) => bytes case _ => [] }
    ensures Rounds(frames + [f]) == Rounds(frames) + if f.Chunk? then 1 else 0
    ensures Completions(frames + [f]) == Completions(frames) + if f.Complete? then 1 else 0
  {
  }

  lemma ServerKeeps(s: System, s': System, file: seq<Byte>, name: string, phase: Phase) returns (phase': Phase)
    requires InPhase(s, file, name, phase) && History(s, file, name, phase) && ServerStep(s, s')
    ensures InPhase(s', file, name, phase') && History(s', file, name, phase')
  {
    hide Payload, Rounds, Completions, RoundsNeeded;
    phase' := phase;
    if s.toServer[0].Chunk? {
      phase' := AckInFlight;
    } else if s.toServer[0].Complete? {
      phase' := Auditing;
    }
  }

  lemma ReadKeeps(s: System, s': System, file: seq<Byte>, name: string, phase: Phase)
    requires InPhase(s, file, name, phase) && History(s, file, name, phase) && ReadStep(s, s')
    ensures InPhase(s', file, name, ChunkInFlight) && History(s', file, name, ChunkInFlight)
  {
    hide Payload, Rounds, Completions;
    var c := s.client;
    FrameAppended(s.sent, Chunk(c.pending[0]));
    assert file[..c.offset] + file[c.offset..Min(c.offset + c.chunkSize, |file|)]
        == file[..Min(c.offset + c.chunkSize, |file|)];
  }

  lemma ReplyKeeps(s: System, s': System, file: seq<Byte>, name: string, phase: Phase) returns (phase': Phase)
    requires InPhase(s, file, name, phase) && History(s, file, name, phase) && ReplyStep(s, s')
    ensures InPhase(s', file, name, phase') && History(s', file, name, phase')
  {
    hide Payload, Rounds, Completions, RoundsNeeded;
    if phase == AckInFlight {
      if s.client.offset >= |file| {
        FrameAppended(s.sent, Complete);
        NeededIs(|file|, Rounds(s.sent));
        assert s'.sent == s.sent + [Complete];
        phase' := Completing;
      } else {
        assert s'.sent == s.sent;
        phase' := Reading;
      }
    } else {
      assert s'.sent == s.sent;
      phase' := Finished;
    }
  }

  lemma NeededIs(size: nat, rounds: nat)
    requires size <= rounds * CHUNK_SIZE < size + CHUNK_SIZE
    ensures rounds == RoundsNeeded(size)
  {
  }

  lemma NextKeeps(s: System, s': System, file: seq<Byte>, name: string)
    requires Inv(s, file, name) && Next(s, s')
    ensures Inv(s', file, name)
  {
    hide InPhase, History;
    var phase :| InPhase(s, file, name, phase) && History(s, file, name, phase);
    if ServerStep(s, s') {
      var phase' := ServerKeeps(s, s', file, name, phase);
    } else if ReadStep(s, s') {
      ReadKeeps(s, s', file, name, phase);
    } else {
      var phase' := ReplyKeeps(s, s', file, name, phase);
    }
  }

  /** A run: each state follows from the one before by one step of the system. */
  ghost predicate IsRun(run: seq<System>) {
    run != [] && forall i {:trigger run[i]} :: 0 < i < |run| ==> Next(run[i - 1], run[i])
  }

  lemma {:induction false} RunKeeps(run: seq<System>, file: seq<Byte>, name: string)
    requires IsRun(run) && Inv(run[0], file, name)
    ensures Inv(run[|run| - 1], file, name)
  {
    hide Inv, Next;
    if |run| > 1 {
      var init := run[..|run| - 1];
      assert forall i {:trigger init[i]} :: 0 <= i < |init| ==> init[i] == run[i];
      RunKeeps(init, file, name);
      NextKeeps(run[|run| - 2], run[|run| - 1], file, name);
    }
  }

  // ---------------------------------------------------------------- safety

  function ChunksIn(frames: seq<Frame>): nat {
    Rounds(frames)
  }

  function AcksIn(replies: seq<Reply>): nat {
    if replies == [] then 0 else AcksIn(replies[..|replies| - 1]) + if replies[|replies| - 1].ReceivedChunk? then 1
        else 0
  }

  /** In every reachable state of an upload: what was sent is the prefix of the file up to the offset, at
      most one read, chunk or acknowledgement is under way, completion is announced at most once and only
      after every byte in the needed number of rounds, and no reply finds the file gone. */
  ghost predicate Safe(s: System, file: seq<Byte>) {
    && (s.client.file.Some? ==> s.client.file.value == file && Payload(s.sent) == file[..Min(s.client.offset, |file|)])
    && |s.client.pending| + ChunksIn(s.toServer) + AcksIn(s.toClient) <= 1
    && Completions(s.sent) <= 1
    && (Completions(s.sent) == 1 ==> Payload(s.sent) == file && Rounds(s.sent) == RoundsNeeded(|file|))
    && (s.toClient != [] ==> OnReply(s.client, s.toClient[0]).Some?)
    && s.stored <= file
  }

  lemma UploadIsSafe(run: seq<System>, idle: System, file: seq<Byte>, name: string)
    requires IsRun(run) && Idle(idle) && run[0] == Begin(idle, file, name)
    ensures Safe(run[|run| - 1], file)
  {
    BeginEstablishes(idle, file, name);
    RunKeeps(run, file, name);
    InvIsSafe(run[|run| - 1], file, name);
  }

  lemma InvIsSafe(s: System, file: seq<Byte>, name: string)
    requires Inv(s, file, name)
    ensures Safe(s, file)
  {
    hide InPhase, History, Safe;
    var phase :| InPhase(s, file, name, phase) && History(s, file, name, phase);
    PhaseIsSafe(s, file, name, phase);
  }

  lemma FewFrames(name: string, size: nat, f: Frame, r: Reply)
    ensures Rounds([]) == 0 && Rounds([Start(name, size)]) == 0
    ensures Rounds([f]) <= 1 && Rounds([Start(name, size)] + [f]) == Rounds([f])
    ensures Rounds([f]) == if f.Chunk? then 1 else 0
    ensures AcksIn([]) == 0 && AcksIn([r]) == if r.ReceivedChunk? then 1 else 0
  {
  }

  lemma PhaseIsSafe(s: System, file: seq<Byte>, name: string, phase: Phase)
    requires InPhase(s, file, name, phase) && History(s, file, name, phase)
    ensures Safe(s, file)
  {
    hide Payload, Rounds, Completions, AcksIn;
    var f := if s.toServer == [] then Complete else s.toServer[|s.toServer| - 1];
    var r := if s.toClient == [] then Other else s.toClient[0];
    FewFrames(name, |file|, f, r);
    assert file[..|file|] == file;
    var start := [Start(name, |file|)];
    assert start + [] == start;
    assert s.toServer == [] || s.toServer == start || s.toServer == [f] || s.toServer == start + [f];
    assert s.toClient == [] || s.toClient == [r];
  }

  // ---------------------------------------------------------------- progress

  ghost function Weight(s: System, file: seq<Byte>, phase: Phase): int {
    3 * (RoundsNeeded(|file|) - Rounds(s.sent))
    + (match phase
       case Reading => 3
       case ChunkInFlight => 5
       case AckInFlight => 4
       case Completing => 3
       case Auditing => 2
       case Finished => 1)
    + if s.toServer != [] && s.toServer[0].Start? then 1 else 0
  }

  /** The upload is over: the server has the whole file and was told so once. For an empty file the server
      never opens a file, hence sends no audit reply, and the client keeps its file. */
  ghost predicate Over(s: System, file: seq<Byte>) {
    && s.client.pending == [] && s.toServer == [] && s.toClient == []
    && Completions(s.sent) == 1 && s.stored == file && Payload(s.sent) == file
    && Rounds(s.sent) == RoundsNeeded(|file|)
    && (s.client.file == None <==> file != [])
  }

  lemma RoundsLeft(s: System, file: seq<Byte>, name: string, phase: Phase)
    requires InPhase(s, file, name, phase) && History(s, file, name, phase)
    ensures Rounds(s.sent) <= RoundsNeeded(|file|)
    ensures phase == Reading ==> Rounds(s.sent) < RoundsNeeded(|file|)
  {
    hide Payload, Rounds, Completions;
  }

  /** Every step brings the upload nearer to its end. */
  lemma StepMakesProgress(s: System, s': System, file: seq<Byte>, name: string, phase: Phase) returns (phase': Phase)
    requires InPhase(s, file, name, phase) && History(s, file, name, phase) && Next(s, s')
    ensures InPhase(s', file, name, phase') && History(s', file, name, phase')
    ensures 0 < Weight(s', file, phase') < Weight(s, file, phase)
  {
    hide Payload, Rounds, Completions;
    if ServerStep(s, s') {
      phase' := ServerKeeps(s, s', file, name, phase);
      ServerPhase(s, s', file, name, phase, phase');
    } else if ReadStep(s, s') {
      ReadKeeps(s, s', file, name, phase);
      phase' := ChunkInFlight;
      FrameAppended(s.sent, Chunk(s.client.pending[0]));
    } else {
      phase' := ReplyKeeps(s, s', file, name, phase);
      ReplyPhase(s, s', file, name, phase, phase');
    }
    RoundsLeft(s', file, name, phase');
  }

  lemma ServerPhase(s: System, s': System, file: seq<Byte>, name: string, phase: Phase, phase': Phase)
    requires InPhase(s, file, name, phase) && ServerStep(s, s') && InPhase(s', file, name, phase')
    ensures Weight(s', file, phase') < Weight(s, file, phase)
  {
    hide Payload, Rounds, Completions, RoundsNeeded;
  }

  lemma ReplyPhase(s: System, s': System, file: seq<Byte>, name: string, phase: Phase, phase': Phase)
    requires InPhase(s, file, name, phase) && ReplyStep(s, s') && InPhase(s', file, name, phase')
    ensures Weight(s', file, phase') < Weight(s, file, phase)
  {
    hide Payload, Rounds, Completions, RoundsNeeded;
    var r := OnReply(s.client, s.toClient[0]).value;
    if r.1 != [] {
      FrameAppended(s.sent, r.1[0]);
    } else {
      assert s'.sent == s.sent;
    }
  }

  ghost predicate Stuck(s: System) {
    forall s' :: !Next(s, s')
  }

  /** A state from which no step is possible is one in which the upload is over. */
  lemma StuckIsOver(s: System, file: seq<Byte>, name: string)
    requires Inv(s, file, name) && Stuck(s)
    ensures Over(s, file)
  {
    hide Payload, Rounds, Completions;
    var phase :| InPhase(s, file, name, phase) && History(s, file, name, phase);
    var s' := Successor(s);
    assert !Next(s, s');
  }

  /** Some step that is possible in s, if there is one. */
  ghost function Successor(s: System): System {
    if s.toServer != [] then
      match s.toServer[0]
      case Start(_, _) => s.(toServer := s.toServer[1..])
      case Chunk(bytes) =>
        s.(toServer := s.toServer[1..], stored := s.stored + bytes, open := true,
           toClient := s.toClient + [ReceivedChunk(|s.stored| + |bytes|)])
      case Complete =>
        if s.open then s.(toServer := s.toServer[1..], open := false, toClient := s.toClient + [AuditComplete])
        else s.(toServer := s.toServer[1..])
    else if s.client.pending != [] then
      var (client, frames) := OnLoad(s.client);
      s.(client := client, toServer := s.toServer + frames, sent := s.sent + frames)
    else if s.toClient != [] && OnReply(s.client, s.toClient[0]).Some? then
      var r := OnReply(s.client, s.toClient[0]).value;
      s.(client := r.0, toServer := s.toServer + r.1, toClient := s.toClient[1..], sent := s.sent + r.1)
    else s
  }

  lemma {:induction false} RunIsShort(run: seq<System>, file: seq<Byte>, name: string, phase: Phase)
    requires IsRun(run) && InPhase(run[0], file, name, phase) && History(run[0], file, name, phase)
    ensures |run| <= Weight(run[0], file, phase)
    decreases |run|
  {
    hide InPhase, History, Next, Weight;
    if |run| > 1 {
      var phase' := StepMakesProgress(run[0], run[1], file, name, phase);
      assert forall i {:trigger run[1..][i]} :: 0 < i < |run| - 1 ==>
          run[1..][i] == run[i + 1] && run[1..][i - 1] == run[i + 1 - 1];
      RunIsShort(run[1..], file, name, phase');
    } else {
      PositiveWeight(run[0], file, name, phase);
    }
  }

  lemma PositiveWeight(s: System, file: seq<Byte>, name: string, phase: Phase)
    requires InPhase(s, file, name, phase) && History(s, file, name, phase)
    ensures 0 < Weight(s, file, phase)
  {
    hide Rounds, Payload, Completions;
    RoundsLeft(s, file, name, phase);
  }

  /** Every run of an upload ends: three steps per round and a few more. Together with StuckIsOver, an
      upload that is not interrupted always reaches its end, after RoundsNeeded rounds. */
  lemma UploadEnds(run: seq<System>, idle: System, file: seq<Byte>, name: string)
    requires IsRun(run) && Idle(idle) && run[0] == Begin(idle, file, name)
    ensures |run| <= 3 * RoundsNeeded(|file|) + 4
    ensures Stuck(run[|run| - 1]) ==> Over(run[|run| - 1], file)
  {
    hide Next, Over, Stuck;
    BeginEstablishes(idle, file, name);
    var phase :| InPhase(run[0], file, name, phase) && History(run[0], file, name, phase);
    RunIsShort(run, file, name, phase);
    BeginWeight(idle, file, name, phase);
    RunKeeps(run, file, name);
    if Stuck(run[|run| - 1]) {
      StuckIsOver(run[|run| - 1], file, name);
    }
  }

  lemma BeginWeight(idle: System, file: seq<Byte>, name: string, phase: Phase)
    requires Idle(idle) && InPhase(Begin(idle, file, name), file, name, phase)
    ensures Weight(Begin(idle, file, name), file, phase) <= 3 * RoundsNeeded(|file|) + 4
  {
  }

  /** The run of an empty upload: the server takes both frames, nothing more happens, and the client still
      has its file. */
  lemma EmptyUploadKeepsFile(idle: System, name: string) returns (run: seq<System>)
    requires Idle(idle)
    ensures IsRun(run) && run[0] == Begin(idle, [], name) && Stuck(run[|run| - 1])
    ensures run[|run| - 1].client.file == Some([]) && Completions(run[|run| - 1].sent) == 1
  {
    var s := Begin(idle, [], name);
    assert s.toServer == [Start(name, 0), Complete];
    var s' := s.(toServer := s.toServer[1..]);
    var s'' := s'.(toServer := s'.toServer[1..]);
    assert s'.toServer == [Complete];
    assert ServerStep(s, s') && ServerStep(s', s'');
    run := [s, s', s''];
    assert run[2] == s'' && s''.toServer == [];
    assert s''.sent == [Start(name, 0), Complete];
    FrameAppended([Start(name, 0)], Complete);
    FrameAppended([], Start(name, 0));
    assert [Start(name, 0)] + [Complete] == [Start(name, 0), Complete];
    assert [] + [Start(name, 0)] == [Start(name, 0)];
  }
}
