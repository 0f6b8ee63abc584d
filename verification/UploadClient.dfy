/** The upload methods of WebSocketClient_Custom (websocket_custom.js) on its fields. `sent` collects what
    ws.send is called with; `pending` holds the slices of readers that have not fired. */
module UploadClient {
  import opened Options
  import opened Upload

  class WebSocketClient {
    var file: Option<seq<Byte>>
    var offset: nat
    var chunkSize: nat
    var pending: seq<seq<Byte>>
    var sent: seq<Frame>

    ghost function State(): Client
      reads this
    {
      Client(file, offset, chunkSize, pending)
    }

    constructor ()
      ensures State() == Client(None, 0, CHUNK_SIZE, []) && sent == []
    {
      file, offset, chunkSize, pending, sent := None, 0, CHUNK_SIZE, [], [];
    }

    method ApiSendFile(chosen: seq<Byte>, name: string)
      modifies this
      ensures State() == SendFile(old(State()), chosen, name).0
      ensures sent == old(sent) + SendFile(old(State()), chosen, name).1
      ensures file == Some(chosen) && offset == 0 && chunkSize == 65536
      ensures sent == old(sent) + [Start(name, |chosen|)] + if chosen == [] then [Complete] else []
      ensures pending == old(pending)
                         + if chosen == [] then [] else [if |chosen| <= 65536 then chosen else chosen[..65536]]
    {
      sent := sent + [Start(name, |chosen|)];
      file := Some(chosen);
      offset := 0;
      chunkSize := 64 * 1024;
      assert chosen[0..|chosen|] == chosen;
      UtilSendNextChunk();
    }

    method UtilSendNextChunk()
      requires file.Some?
      modifies this
      ensures State() == SendNextChunk(old(State())).0
      ensures sent == old(sent) + SendNextChunk(old(State())).1
      ensures file == old(file) && offset == old(offset) && chunkSize == old(chunkSize)
      ensures var left := |file.value| - offset;
              if left <= 0 then sent == old(sent) + [Complete] && pending == old(pending)
              else sent == old(sent) && |pending| == |old(pending)| + 1
                   && pending == old(pending) + [file.value[offset..][..if left < chunkSize then left else chunkSize]]
    {
      if offset >= |file.value| {
        sent := sent + [Complete];
        return;
      }
      var end := if offset + chunkSize <= |file.value| then offset + chunkSize else |file.value|;
      assert file.value[offset..][..end - offset] == file.value[offset..end];
      pending := pending + [file.value[offset..end]];
    }

    /** The oldest reader fires. */
    method OnReaderLoad()
      requires pending != []
      modifies this
      ensures State() == OnLoad(old(State())).0
      ensures sent == old(sent) + OnLoad(old(State())).1
      ensures sent == old(sent) + [Chunk(old(pending)[0])] && pending == old(pending)[1..]
      ensures offset == old(offset) + chunkSize && file == old(file) && chunkSize == old(chunkSize)
    {
      sent := sent + [Chunk(pending[0])];
      pending := pending[1..];
      offset := offset + chunkSize;
    }

    /** `threw` tells whether the handler ends in a TypeError because no file is being uploaded. */
    method OnTextResponse(response: Reply) returns (threw: bool)
      modifies this
      ensures threw <==> OnReply(old(State()), response).None?
      ensures threw <==> response.ReceivedChunk? && old(file) == None
      ensures response == AuditComplete || response == AuditFailed ==> file == None && sent == old(sent)
      ensures response == ReceivedFull || response == Other ==> State() == old(State()) && sent == old(sent)
      ensures threw ==> State() == old(State()) && sent == old(sent)
      ensures !threw ==>
                && State() == OnReply(old(State()), response).value.0
                && sent == old(sent) + OnReply(old(State()), response).value.1
    {
      threw := false;
      match response
      case ReceivedChunk(_) =>
        if file == None {
          threw := true;
        } else {
          UtilSendNextChunk();
        }
      case AuditComplete => OnFileUploaded();
      case AuditFailed => OnFileUploaded();
      case _ =>
    }

    method OnFileUploaded()
      modifies this
      ensures State() == Uploaded(old(State())) && sent == old(sent)
      ensures file == None && offset == 0 && chunkSize == 65536 && pending == old(pending)
    {
      offset := 0;
      file := None;
      chunkSize := 64 * 1024;
    }
  }
}
