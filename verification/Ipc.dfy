/** HIPC transport and CMIF framing (core/hle/kernel/ipc.c) over a 0x100-byte command buffer. */
module Ipcs {
  import opened Results
  import opened Bytes
  import opened GuestMemory
  import opened SessionTables

  const BUFFER_BYTES: nat := 0x100
  const HEADER_BYTES: nat := 8
  const SPECIAL_HEADER_BYTES: nat := 4
  const PID_BYTES: nat := 8
  const CMIF_ALIGN: nat := 16
  const CMIF_HEADER_BYTES: nat := 16
  const CMIF_PADDING_BYTES: nat := 16
  const MAGIC_SFCI: nat := 0x4943_4653
  const MAGIC_SFCO: nat := 0x4F43_4653
  const TYPE_CLOSE: nat := 2
  const TYPE_REQUEST: nat := 4
  const SPECIAL_BIT: nat := 0x8000_0000
  const RESULT_NOT_IMPLEMENTED: nat := 0x4201
  const MAX_OUT_OBJECTS: nat := 1

  datatype Request =
    | CloseMessage(pid: Option<nat>)
    | CommandMessage(commandId: nat, pid: Option<nat>, data: seq<Byte>)

  /** What a command handler produces; ipc_response_add_move_object refuses more objects than a response holds. */
  datatype Reply = Reply(result: nat, outObjects: seq<ServiceObject>)

  type Response = r: Reply | r.result < 0x1_0000_0000 && |r.outObjects| <= MAX_OUT_OBJECTS witness Reply(0, [])

  const NO_SUCH_COMMAND: Response := Reply(RESULT_NOT_IMPLEMENTED, [])

  /** ipc_response_add_move_object. */
  function AddMoveObject(response: Response, service: ServiceObject): (r: Option<Response>)
    ensures r.Some? <==> |response.outObjects| < MAX_OUT_OBJECTS
    ensures r.Some? ==> r.value.outObjects == response.outObjects + [service] && r.value.result == response.result
  {
    if |response.outObjects| >= MAX_OUT_OBJECTS then None
    else Some(Reply(response.result, response.outObjects + [service]))
  }

  datatype Parsed = Accepted(request: Request) | Refused(error: Error)

  function AlignUp16(value: nat): (r: nat)
    ensures r % CMIF_ALIGN == 0 && value <= r < value + CMIF_ALIGN
  {
    (value + 15) / CMIF_ALIGN * CMIF_ALIGN
  }

  // ----- Parsing -----

  /** Descriptor counts of word 0 and the receive-list mode of word 1 are all zero. */
  predicate NoBuffers(word0: nat, word1: nat) {
    word0 / 0x1_0000 % 0x1_0000 == 0 && word1 / 0x400 % 0x10 == 0
  }

  predicate HasSpecial(word1: nat) {
    word1 / SPECIAL_BIT % 2 == 1
  }

  predicate SendsPid(special: nat) {
    special % 2 == 1
  }

  /** Copy and move handle counts of a special header. */
  predicate NoHandles(special: nat) {
    special / 2 % 0x10 == 0 && special / 0x20 % 0x10 == 0
  }

  /** Where the raw data starts, and the pid. */
  function DataStart(word1: nat, special: nat): nat {
    if !HasSpecial(word1) then HEADER_BYTES
    else if SendsPid(special) then HEADER_BYTES + SPECIAL_HEADER_BYTES + PID_BYTES
    else HEADER_BYTES + SPECIAL_HEADER_BYTES
  }

  function PidOf(buffer: seq<Byte>): Option<nat>
    requires |buffer| == BUFFER_BYTES
  {
    if HasSpecial(Word(buffer, 4)) && SendsPid(Word(buffer, 8)) then Some(FromLe(buffer[12..20])) else None
  }

  /** What a buffer means as a request, or why it is refused. */
  function Meaning(buffer: seq<Byte>): Parsed
    requires |buffer| == BUFFER_BYTES
  {
    var word0, word1, special := Word(buffer, 0), Word(buffer, 4), Word(buffer, 8);
    var kind := word0 % 0x1_0000;
    if kind !in {TYPE_REQUEST, TYPE_CLOSE} || !NoBuffers(word0, word1) then Refused(NotImplemented)
    else if HasSpecial(word1) && !NoHandles(special) then Refused(NotImplemented)
    else if kind == TYPE_CLOSE then Accepted(CloseMessage(PidOf(buffer)))
    else
      var start := DataStart(word1, special);
      var end := start + word1 % 0x400 * 4;
      var cmif := AlignUp16(start);
      if end > BUFFER_BYTES || cmif + CMIF_HEADER_BYTES > end then Refused(MemoryFault)
      else if Word(buffer, cmif) != MAGIC_SFCI then Refused(NotImplemented)
      else Accepted(CommandMessage(Word(buffer, cmif + 8), PidOf(buffer), buffer[cmif + CMIF_HEADER_BYTES..end]))
  }

  /** ipc_request_parse, with its running offset. */
  method ParseRequest(buffer: seq<Byte>) returns (parsed: Parsed)
    requires |buffer| == BUFFER_BYTES
    ensures parsed == Meaning(buffer)
  {
    hide FromLe;
    var word0, word1 := Word(buffer, 0), Word(buffer, 4);
    var kind := word0 % 0x1_0000;
    var numX, numA, numB, numW := word0 / 0x1_0000 % 16, word0 / 0x10_0000 % 16, word0 / 0x100_0000 % 16,
        word0 / 0x1000_0000 % 16;
    FourNibbles(word0);
    if kind == 15 || kind >= 16 {
      return Refused(NotImplemented);
    }
    if kind != TYPE_REQUEST && kind != TYPE_CLOSE {
      return Refused(NotImplemented);
    }
    if numX != 0 || numA != 0 || numB != 0 || numW != 0 || word1 / 0x400 % 0x10 != 0 {
      return Refused(NotImplemented);
    }
    var offset := HEADER_BYTES;
    var pid: Option<nat> := None;
    if word1 / SPECIAL_BIT % 2 == 1 {
      var special := Word(buffer, offset);
      offset := offset + SPECIAL_HEADER_BYTES;
      if special / 2 % 0x10 != 0 || special / 0x20 % 0x10 != 0 {
        return Refused(NotImplemented);
      }
      if special % 2 == 1 {
        pid := Some(FromLe(buffer[offset..offset + PID_BYTES]));
        offset := offset + PID_BYTES;
      }
    }
    if kind == TYPE_CLOSE {
      return Accepted(CloseMessage(pid));
    }
    var dataEnd := offset + word1 % 0x400 * 4;
    var cmif := AlignUp16(offset);
    if dataEnd > BUFFER_BYTES {
      return Refused(MemoryFault);
    }
    if cmif + CMIF_HEADER_BYTES > dataEnd {
      return Refused(MemoryFault);
    }
    if Word(buffer, cmif) != MAGIC_SFCI {
      return Refused(NotImplemented);
    }
    parsed := Accepted(CommandMessage(Word(buffer, cmif + 8), pid, buffer[cmif + CMIF_HEADER_BYTES..dataEnd]));
  }

  lemma FourNibbles(w: nat)
    ensures w / 0x1_0000 % 0x1_0000 == 0 <==>
              w / 0x1_0000 % 16 == 0 && w / 0x10_0000 % 16 == 0 && w / 0x100_0000 % 16 == 0 && w / 0x1000_0000 % 16 == 0
  {
    var h := w / 0x1_0000;
    ShiftTwice(w);
    Nibbles(h);
  }

  lemma ShiftTwice(w: nat)
    ensures var h := w / 0x1_0000; w / 0x10_0000 == h / 16 && w / 0x100_0000 == h / 256 && w / 0x1000_0000 == h / 4096
  {
  }

  lemma Nibbles(h: nat)
    ensures h % 0x1_0000 == 0 <==> h % 16 == 0 && h / 16 % 16 == 0 && h / 256 % 16 == 0 && h / 4096 % 16 == 0
  {
    LowBytes(h);
    LowNibbles(h);
    LowNibbles(h / 256);
    NestedShift(h);
  }

  lemma LowBytes(h: nat)
    ensures h % 0x1_0000 == 0 <==> h % 256 == 0 && h / 256 % 256 == 0
  {
  }

  lemma NestedShift(h: nat)
    ensures h / 256 / 16 == h / 4096
  {
  }

  lemma LowNibbles(h: nat)
    ensures h % 256 == 0 <==> h % 16 == 0 && h / 16 % 16 == 0
  {
  }

  /**
   The request in a buffer, in numbers: type 2 or 4 without descriptors or receive list; in a special
   header only a pid, as the eight bytes at 12; a command's SFCI header at the next multiple of 16 behind
   it, and its data up to the last announced word.
   */
  lemma MeaningMeans(buffer: seq<Byte>)
    requires |buffer| == 0x100
    ensures var w0, w1, w2 := Word(buffer, 0), Word(buffer, 4), Word(buffer, 8);
            var special := w1 >= 0x8000_0000;
            var sendsPid := special && w2 % 2 == 1;
            var plain := w0 in {2, 4} && w1 / 0x400 % 16 == 0 && (special ==> w2 / 2 % 16 == 0 && w2 / 32 % 16 == 0);
            var pid := if sendsPid then Some(FromLe(buffer[12..20])) else None;
            var start := if sendsPid then 20 else if special then 12 else 8;
            var cmif := if sendsPid then 32 else 16;
            var end := start + w1 % 0x400 * 4;
            && (!plain ==> Meaning(buffer) == Refused(NotImplemented))
            && (plain && w0 == 2 ==> Meaning(buffer) == Accepted(CloseMessage(pid)))
            && (plain && w0 == 4 && (end > 0x100 || cmif + 16 > end) ==> Meaning(buffer) == Refused(MemoryFault))
            && (plain && w0 == 4 && cmif + 16 <= end <= 0x100 && Word(buffer, cmif) != 0x4943_4653 ==>
                  Meaning(buffer) == Refused(NotImplemented))
            && (plain && w0 == 4 && cmif + 16 <= end <= 0x100 && Word(buffer, cmif) == 0x4943_4653 ==>
                  Meaning(buffer)
                  == Accepted(CommandMessage(Word(buffer, cmif + 8), pid, buffer[cmif + 16..end])))
  {
    HeaderWords(Word(buffer, 0), Word(buffer, 4));
    assert AlignUp16(8) == 16 && AlignUp16(12) == 16 && AlignUp16(20) == 32;
    hide Word, FromLe, AlignUp16;
  }

  lemma HeaderWords(w0: nat, w1: nat)
    requires w0 < 0x1_0000_0000 && w1 < 0x1_0000_0000
    ensures w0 in {2, 4} <==> w0 % 0x1_0000 in {2, 4} && w0 / 0x1_0000 % 0x1_0000 == 0
    ensures w0 in {2, 4} ==> w0 % 0x1_0000 == w0
    ensures HasSpecial(w1) <==> w1 >= 0x8000_0000
  {
  }

  /** A request laid out the way libnx does: type 4, optional pid, padding reserve, SFCI header, payload. */
  ghost predicate LaidOutByLibnx(buffer: seq<Byte>, commandId: nat, sendPid: bool, payload: seq<Byte>)
    requires |buffer| == BUFFER_BYTES
  {
    var start := if sendPid then 20 else 8;
    var words := (CMIF_PADDING_BYTES + CMIF_HEADER_BYTES + |payload| + 3) / 4;
    var cmif := if sendPid then 32 else 16;
    && start + words * 4 <= BUFFER_BYTES
    && Word(buffer, 0) == TYPE_REQUEST
    && Word(buffer, 4) == words + (if sendPid then SPECIAL_BIT else 0)
    && (sendPid ==> Word(buffer, 8) == 1)
    && Word(buffer, cmif) == MAGIC_SFCI && Word(buffer, cmif + 8) == commandId
    && buffer[cmif + CMIF_HEADER_BYTES..cmif + CMIF_HEADER_BYTES + |payload|] == payload
  }

  /** Such a request is accepted, with its command id, and its payload leads the data. */
  lemma LibnxRequestParses(buffer: seq<Byte>, commandId: nat, sendPid: bool, payload: seq<Byte>)
    requires |buffer| == BUFFER_BYTES && LaidOutByLibnx(buffer, commandId, sendPid, payload)
    ensures Meaning(buffer).Accepted? && Meaning(buffer).request.CommandMessage?
    ensures var r := Meaning(buffer).request;
            && r.commandId == commandId && payload <= r.data
            && r.pid == (if sendPid then Some(FromLe(buffer[12..20])) else None)
            && |r.data| == (|payload| + 3) / 4 * 4 + if sendPid then 4 else 8
  {
    hide FromLe;
    var words := (CMIF_PADDING_BYTES + CMIF_HEADER_BYTES + |payload| + 3) / 4;
    assert words < 0x400;
    assert AlignUp16(8) == 16 && AlignUp16(20) == 32;
  }

  // ----- Dispatch -----

  /** The command table is sorted by id, each id once. */
  ghost predicate Sorted(commands: seq<Command>) {
    forall i, j :: 0 <= i < j < |commands| ==> commands[i].id < commands[j].id
  }

  /** ipc_dispatch's binary search. */
  method FindCommand(commands: seq<Command>, id: nat) returns (found: Option<Command>)
    ensures found.Some? ==> found.value in commands && found.value.id == id
    ensures Sorted(commands) ==> (found.Some? <==> exists c :: c in commands && c.id == id)
    ensures Sorted(commands) ==> forall c :: c in commands && c.id == id ==> found == Some(c)
  {
    var lo, hi := 0, |commands|;
    while lo < hi
      invariant lo <= hi <= |commands|
      invariant Sorted(commands) ==> forall k :: 0 <= k < lo ==> commands[k].id < id
      invariant Sorted(commands) ==> forall k :: hi <= k < |commands| ==> id < commands[k].id
      decreases hi - lo
    {
      var mid := lo + (hi - lo) / 2;
      if commands[mid].id == id {
        return Some(commands[mid]);
      }
      if commands[mid].id < id {
        lo := mid + 1;
      } else {
        hi := mid;
      }
    }
    found := None;
  }

  /** Runs a handler by number: (handler, instance, request) to the response. */
  type Handlers = (nat, nat, Request) -> Response

  /** The response of the one command with the request's id, or NotImplemented without objects when there is none. */
  ghost predicate IsReply(service: ServiceObject, request: Request, handlers: Handlers, response: Response)
    requires request.CommandMessage?
  {
    if service.Bound? && exists c :: c in service.commands && c.id == request.commandId
    then
      exists c :: c in service.commands && c.id == request.commandId
                  && response == handlers(c.handler, service.instance, request)
    else response == NO_SUCH_COMMAND
  }

  /** ipc_dispatch, over a sorted command table. */
  method Dispatch(service: ServiceObject, request: Request, handlers: Handlers) returns (response: Response)
    requires request.CommandMessage? && (service.Bound? ==> Sorted(service.commands))
    ensures IsReply(service, request, handlers, response)
  {
    if service.Unbound? {
      return NO_SUCH_COMMAND;
    }
    var found := FindCommand(service.commands, request.commandId);
    if found.None? {
      return NO_SUCH_COMMAND;
    }
    response := handlers(found.value.handler, service.instance, request);
  }

  /** Ids of a sorted table are unique, so there is only one reply. */
  lemma ReplyIsUnique(service: ServiceObject, request: Request, handlers: Handlers, a: Response, b: Response)
    requires request.CommandMessage? && (service.Bound? ==> Sorted(service.commands))
    requires IsReply(service, request, handlers, a) && IsReply(service, request, handlers, b)
    ensures a == b
  {
    if service.Bound? {
      forall c, d | c in service.commands && d in service.commands && c.id == d.id
        ensures c == d
      {
        var i :| 0 <= i < |service.commands| && service.commands[i] == c;
        var j :| 0 <= j < |service.commands| && service.commands[j] == d;
      }
    }
  }

  /** A command nobody has is answered 0x4201, "not implemented", without objects. */
  lemma UnknownCommand(service: ServiceObject, request: Request, handlers: Handlers, response: Response)
    requires request.CommandMessage? && IsReply(service, request, handlers, response)
    requires service.Unbound? || forall c :: c in service.commands ==> c.id != request.commandId
    ensures response.result == 0x4201 && response.outObjects == []
  {
  }

  // ----- Writing the response -----

  /** Handles of 4 bytes each after the special header, then the data section: padding reserve and SFCO header. */
  function ResponseStart(n: nat): nat {
    if n == 0 then HEADER_BYTES else HEADER_BYTES + SPECIAL_HEADER_BYTES + 4 * n
  }

  /** Word k of a written response. */
  function ResponseWord(result: nat, handles: seq<nat>, k: nat): nat {
    var n := |handles|;
    var cmif := AlignUp16(ResponseStart(n)) / 4;
    if k == 1 then 8 + (if n > 0 then SPECIAL_BIT else 0)
    else if k == 2 && n > 0 then 0x20 * n
    else if 3 <= k < 3 + n then handles[k - 3]
    else if k == cmif then MAGIC_SFCO
    else if k == cmif + 2 then result
    else 0
  }

  /** Without objects: eight data words, "SFCO" and the result behind the padding; with one, its handle before them. */
  lemma ResponseLayout(result: nat, handle: nat, k: nat)
    ensures ResponseWord(result, [], k) ==
            if k == 1 then 8 else if k == 4 then 0x4F43_4653 else if k == 6 then result else 0
    ensures ResponseWord(result, [handle], k) ==
            if k == 1 then 0x8000_0008 else if k == 2 then 0x20 else if k == 3 then handle
            else if k == 4 then 0x4F43_4653 else if k == 6 then result else 0
  {
    assert AlignUp16(8) == 16 && AlignUp16(16) == 16;
    assert |[handle]| == 1;
  }

  predicate ResponseFits(n: nat) {
    ResponseStart(n) + CMIF_PADDING_BYTES + CMIF_HEADER_BYTES <= BUFFER_BYTES
  }

  lemma {:induction false} AllZero(s: seq<Byte>)
    requires forall k :: 0 <= k < |s| ==> s[k] == 0
    ensures FromLe(s) == 0
  {
    if s != [] {
      AllZero(s[1..]);
    }
  }

  lemma ZeroWord(s: seq<Byte>, at: nat)
    requires at + 4 <= |s| && forall k :: at <= k < at + 4 ==> s[k] == 0
    ensures Word(s, at) == 0
  {
    AllZero(s[at..at + 4]);
  }

  /** A stored word reads back, and leaves other words alone. */
  lemma StoredWord(s: seq<Byte>, at: nat, v: nat, other: nat)
    requires at + 4 <= |s| && other + 4 <= |s| && at % 4 == 0 && other % 4 == 0 && v < 0x1_0000_0000
    ensures Word(Splice(s, at, Le(v, 4)), other) == if other == at then v else Word(s, other)
  {
    var r := Splice(s, at, Le(v, 4));
    if other == at {
      assert r[at..at + 4] == Le(v, 4);
      assert Pow256(4) == 256 * Pow256(3) && Pow256(3) == 256 * Pow256(2) && Pow256(2) == 65536;
      LeReadsBack(v, 4);
    } else {
      assert r[other..other + 4] == s[other..other + 4];
    }
  }

  /** write_u32. */
  method WriteWord(buffer: array<Byte>, at: nat, v: nat)
    requires buffer.Length == BUFFER_BYTES && at + 4 <= BUFFER_BYTES && at % 4 == 0 && v < 0x1_0000_0000
    modifies buffer
    ensures forall k: nat :: k < BUFFER_BYTES / 4 ==>
              Word(buffer[..], 4 * k) == if 4 * k == at then v else Word(old(buffer[..]), 4 * k)
  {
    hide Word, Le;
    var bytes := Le(v, 4);
    ghost var was := buffer[..];
    buffer[at], buffer[at + 1], buffer[at + 2], buffer[at + 3] := bytes[0], bytes[1], bytes[2], bytes[3];
    assert buffer[..] == Splice(was, at, bytes);
    forall k: nat | k < BUFFER_BYTES / 4
      ensures Word(buffer[..], 4 * k) == if 4 * k == at then v else Word(was, 4 * k)
    {
      StoredWord(was, at, v, 4 * k);
    }
  }

  /** ipc_response_write: the whole buffer is determined, word by word. */
  method WriteResponse(buffer: array<Byte>, response: Response, handles: seq<nat>) returns (e: Error)
    requires buffer.Length == BUFFER_BYTES
    requires forall i :: 0 <= i < |handles| ==> handles[i] < 0x1_0000_0000
    modifies buffer
    ensures e == if |handles| == |response.outObjects| && ResponseFits(|handles|) then Ok else InvalidArgument
    ensures |handles| != |response.outObjects| ==> buffer[..] == old(buffer[..])
    ensures e == Ok ==> forall k: nat :: k < BUFFER_BYTES / 4 ==>
                          Word(buffer[..], 4 * k) == ResponseWord(response.result, handles, k)
  {
    hide Word;
    if |handles| != |response.outObjects| {
      return InvalidArgument;
    }
    forall k | 0 <= k < BUFFER_BYTES {
      buffer[k] := 0;
    }
    forall k: nat | k < BUFFER_BYTES / 4
      ensures Word(buffer[..], 4 * k) == 0
    {
      ZeroWord(buffer[..], 4 * k);
    }
    var n := |handles|;
    if !ResponseFits(n) {
      return InvalidArgument;
    }
    var offset := HEADER_BYTES;
    if n > 0 {
      WriteWord(buffer, offset, 0x20 * n);
      offset := offset + SPECIAL_HEADER_BYTES;
      for i := 0 to n
        invariant offset == 12 + 4 * i
        invariant forall k: nat :: k < BUFFER_BYTES / 4 ==>
                    Word(buffer[..], 4 * k) == if k == 2 then 0x20 * n else if 3 <= k < 3 + i then handles[k - 3] else 0
      {
        WriteWord(buffer, offset, handles[i]);
        offset := offset + 4;
      }
    }
    assert offset == ResponseStart(n);
    var cmif := AlignUp16(offset);
    WriteWord(buffer, cmif, MAGIC_SFCO);
    WriteWord(buffer, cmif + 4, 0);
    WriteWord(buffer, cmif + 8, response.result);
    WriteWord(buffer, cmif + 12, 0);
    WriteWord(buffer, 0, 0);
    WriteWord(buffer, 4, 8 + if n > 0 then SPECIAL_BIT else 0);
    e := Ok;
  }

  // ----- Reading it the way the guest does -----

  /** hipcParseResponse: the move handles after the special header. */
  function ReadHandles(buffer: seq<Byte>): seq<nat>
    requires |buffer| == BUFFER_BYTES
  {
    if !HasSpecial(Word(buffer, 4)) then []
    else seq(Word(buffer, 8) / 0x20 % 0x10, (i: nat) requires i < 0x10 => Word(buffer, 12 + 4 * i))
  }

  /** cmifParseResponse: the SFCO header at the first aligned offset of the data. */
  function ReadResult(buffer: seq<Byte>): Option<nat>
    requires |buffer| == BUFFER_BYTES
  {
    var n := |ReadHandles(buffer)|;
    var cmif := AlignUp16(ResponseStart(n));
    if cmif + CMIF_HEADER_BYTES <= BUFFER_BYTES
        && Word(buffer, cmif) == MAGIC_SFCO then Some(Word(buffer, cmif + 8)) else None
  }

  /** The guest recovers the result and the handles of every response with at most 15 handles. */
  lemma ResponseReadsBack(buffer: seq<Byte>, result: nat, handles: seq<nat>)
    requires |buffer| == BUFFER_BYTES && |handles| < 16 && ResponseFits(|handles|)
    requires forall k: nat :: k < BUFFER_BYTES / 4 ==> Word(buffer, 4 * k) == ResponseWord(result, handles, k)
    ensures ReadHandles(buffer) == handles && ReadResult(buffer) == Some(result)
  {
    hide Word;
    var n := |handles|;
    assert Word(buffer, 4 * 1) == ResponseWord(result, handles, 1);
    assert Word(buffer, 4 * 2) == ResponseWord(result, handles, 2);
    forall i: nat | i < n
      ensures Word(buffer, 12 + 4 * i) == handles[i]
    {
      assert Word(buffer, 4 * (3 + i)) == ResponseWord(result, handles, 3 + i);
    }
    var cmif := AlignUp16(ResponseStart(n)) / 4;
    assert Word(buffer, 4 * cmif) == ResponseWord(result, handles, cmif);
    assert Word(buffer, 4 * (cmif + 2)) == ResponseWord(result, handles, cmif + 2);
  }
}
