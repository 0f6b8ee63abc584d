/** The upload while other messages arrive: chat lines and download notices may come in at any time, in
    between the replies to the upload (websocket_custom.js:176-190), and do not disturb it. */
module UploadChat {
  import opened Upload

  /** The server also sends something that is not about the upload. */
  ghost predicate ChatStep(s: System, s': System) {
    s' == s.(toClient := s.toClient + [Other])
  }

  ghost predicate NextOrChat(s: System, s': System) {
    Next(s, s') || ChatStep(s, s')
  }

  ghost predicate IsChattyRun(run: seq<System>) {
    run != [] && forall i {:trigger run[i]} :: 0 < i < |run| ==> NextOrChat(run[i - 1], run[i])
  }

  /** The replies to the upload among all messages on their way. */
  ghost function Quiet(replies: seq<Reply>): seq<Reply> {
    if replies == [] then []
    else Quiet(replies[..|replies| - 1]) + if replies[|replies| - 1] == Other then [] else [replies[|replies| - 1]]
  }

  /** A state without its chatter. */
  ghost function Core(s: System): System {
    s.(toClient := Quiet(s.toClient))
  }

  lemma QuietAppends(replies: seq<Reply>, r: Reply)
    ensures Quiet(replies + [r]) == Quiet(replies) + if r == Other then [] else [r]
  {
    assert (replies + [r])[..|replies|] == replies;
  }

  lemma {:induction false} QuietHead(replies: seq<Reply>)
    requires replies != []
    ensures Quiet(replies) == (if replies[0] == Other then [] else [replies[0]]) + Quiet(replies[1..])
  {
    if |replies| > 1 {
      var init, last := replies[..|replies| - 1], replies[|replies| - 1];
      QuietHead(init);
      assert init[1..] + [last] == replies[1..];
      QuietAppends(init[1..], last);
    }
  }

  lemma AcksAppend(replies: seq<Reply>, r: Reply)
    ensures AcksIn(replies + [r]) == AcksIn(replies) + if r.ReceivedChunk? then 1 else 0
  {
    assert (replies + [r])[..|replies|] == replies;
  }

  lemma {:induction false} QuietKeepsAcks(replies: seq<Reply>)
    ensures AcksIn(Quiet(replies)) == AcksIn(replies)
  {
    if replies != [] {
      var init, last := replies[..|replies| - 1], replies[|replies| - 1];
      QuietKeepsAcks(init);
      assert replies == init + [last];
      QuietAppends(init, last);
      AcksAppend(init, last);
      AcksAppend(Quiet(init), last);
      hide Quiet, AcksIn;
      assert Quiet(init) + [] == Quiet(init);
    }
  }

  lemma ServerStepQuiet(s: System, s': System)
    requires ServerStep(s, s')
    ensures ServerStep(Core(s), Core(s'))
  {
    match s.toServer[0]
    case Start(_, _) =>
    case Chunk(bytes) => QuietAppends(s.toClient, ReceivedChunk(|s.stored| + |bytes|));
    case Complete =>
      if s.open {
        QuietAppends(s.toClient, AuditComplete);
        QuietAppends(s.toClient, AuditFailed);
      }
  }

  lemma ReplyStepQuiet(s: System, s': System)
    requires ReplyStep(s, s')
    ensures Core(s') == Core(s) || ReplyStep(Core(s), Core(s'))
  {
    QuietHead(s.toClient);
    var rest := Quiet(s.toClient[1..]);
    assert s.toServer + [] == s.toServer && s.sent + [] == s.sent;
    assert [] + rest == rest;
    assert s.toClient[0] != Other ==> ([s.toClient[0]] + rest)[1..] == rest;
  }

  /** Without the chatter, every step is a step of the upload or nothing at all. */
  lemma StepIsQuiet(s: System, s': System)
    requires NextOrChat(s, s')
    ensures Core(s') == Core(s) || Next(Core(s), Core(s'))
  {
    if ServerStep(s, s') {
      ServerStepQuiet(s, s');
    } else if ReadStep(s, s') {
    } else if ReplyStep(s, s') {
      ReplyStepQuiet(s, s');
    } else {
      QuietAppends(s.toClient, Other);
    }
  }

  lemma {:induction false} ChattyRunKeeps(run: seq<System>, file: seq<Byte>, name: string)
    requires IsChattyRun(run) && Inv(Core(run[0]), file, name)
    ensures Inv(Core(run[|run| - 1]), file, name)
  {
    hide Inv, Next, NextOrChat, Core;
    if |run| > 1 {
      var init := run[..|run| - 1];
      assert forall i {:trigger init[i]} :: 0 <= i < |init| ==> init[i] == run[i];
      ChattyRunKeeps(init, file, name);
      var s, s' := run[|run| - 2], run[|run| - 1];
      StepIsQuiet(s, s');
      if Core(s') != Core(s) {
        NextKeeps(Core(s), Core(s'), file, name);
      }
    }
  }

  lemma SafeWithChatter(s: System, file: seq<Byte>)
    requires Safe(Core(s), file)
    ensures Safe(s, file)
  {
    QuietKeepsAcks(s.toClient);
    if s.toClient != [] {
      QuietHead(s.toClient);
    }
  }

  lemma BeginQuiet(idle: System, file: seq<Byte>, name: string)
    ensures Core(Begin(idle, file, name)) == Begin(Core(idle), file, name)
  {
  }

  /** The safety of the upload holds in every run with other messages as well. */
  lemma ChattyUploadIsSafe(run: seq<System>, idle: System, file: seq<Byte>, name: string)
    requires IsChattyRun(run) && Idle(Core(idle)) && run[0] == Begin(idle, file, name)
    ensures Safe(run[|run| - 1], file)
  {
    hide Safe, Inv, Core, Begin, NextOrChat;
    BeginEstablishes(Core(idle), file, name);
    BeginQuiet(idle, file, name);
    ChattyRunKeeps(run, file, name);
    InvIsSafe(Core(run[|run| - 1]), file, name);
    SafeWithChatter(run[|run| - 1], file);
  }

  // ---------------------------------------------------------------- progress

  /** How many steps of a run concern the upload. */
  ghost function UploadSteps(run: seq<System>): nat {
    if |run| <= 1 then 0 else UploadSteps(run[1..]) + if Core(run[1]) == Core(run[0]) then 0 else 1
  }

  lemma {:induction false} FewUploadSteps(run: seq<System>, file: seq<Byte>, name: string, phase: Phase)
    requires IsChattyRun(run)
    requires InPhase(Core(run[0]), file, name, phase) && History(Core(run[0]), file, name, phase)
    ensures UploadSteps(run) < Weight(Core(run[0]), file, phase)
  {
    hide InPhase, History, NextOrChat, Next, Weight, Core;
    PositiveWeight(Core(run[0]), file, name, phase);
    if |run| > 1 {
      var rest := run[1..];
      assert forall i {:trigger rest[i]} :: 0 < i < |rest| ==> rest[i] == run[i + 1] && rest[i - 1] == run[i];
      StepIsQuiet(run[0], run[1]);
      var phase' := phase;
      if Core(run[1]) != Core(run[0]) {
        phase' := StepMakesProgress(Core(run[0]), Core(run[1]), file, name, phase);
      }
      FewUploadSteps(rest, file, name, phase');
    }
  }

  /** When only chatter can still happen, no message is on its way any more and the upload is over. */
  lemma OnlyChatLeft(s: System, file: seq<Byte>, name: string)
    requires Inv(Core(s), file, name) && Stuck(s)
    ensures Over(s, file)
  {
    hide Inv, Over, Stuck, Safe;
    InvIsSafe(Core(s), file, name);
    if s.toClient != [] {
      HeadIsAnswered(s, file);
      ReplyMoves(s);
    } else {
      assert Core(s) == s;
      StuckIsOver(s, file, name);
    }
  }

  lemma ReplyMoves(s: System)
    requires s.toClient != [] && OnReply(s.client, s.toClient[0]).Some?
    ensures !Stuck(s)
  {
    var r := OnReply(s.client, s.toClient[0]).value;
    var s' := s.(client := r.0, toServer := s.toServer + r.1, toClient := s.toClient[1..], sent := s.sent + r.1);
    assert Next(s, s');
  }

  lemma HeadIsAnswered(s: System, file: seq<Byte>)
    requires Safe(Core(s), file) && s.toClient != []
    ensures OnReply(s.client, s.toClient[0]).Some?
  {
    QuietHead(s.toClient);
  }

  /** However much chatter there is, an upload takes at most three steps per round and a few more, and a
      run after which only chatter is possible has completed it. */
  lemma ChattyUploadEnds(run: seq<System>, idle: System, file: seq<Byte>, name: string)
    requires IsChattyRun(run) && Idle(Core(idle)) && run[0] == Begin(idle, file, name)
    ensures UploadSteps(run) <= 3 * RoundsNeeded(|file|) + 3
    ensures Stuck(run[|run| - 1]) ==> Over(run[|run| - 1], file)
  {
    hide Core, Begin, NextOrChat, InPhase, History, Over, Stuck;
    BeginEstablishes(Core(idle), file, name);
    BeginQuiet(idle, file, name);
    var phase :| InPhase(Core(run[0]), file, name, phase) && History(Core(run[0]), file, name, phase);
    FewUploadSteps(run, file, name, phase);
    BeginWeight(Core(idle), file, name, phase);
    ChattyRunKeeps(run, file, name);
    if Stuck(run[|run| - 1]) {
      OnlyChatLeft(run[|run| - 1], file, name);
    }
  }
}
