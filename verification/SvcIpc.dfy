/** The IPC SVCs (core/hle/kernel/svc_ipc.c): ConnectToNamedPort, SendSyncRequest and CloseHandle. */
module SvcIpcs {
  import opened Results
  import opened Geometry
  import opened Bytes
  import opened FlatMaps
  import opened GuestMemory
  import opened Vmms
  import opened SessionTables
  import opened Ipcs

  const NAME_MAX_BYTES: nat := 12
  /** "sm:" */
  const SM_PORT_NAME: seq<Byte> := [0x73, 0x6D, 0x3A]

  // ----- The SVCs as steps of the session table -----

  datatype PortName = Name(bytes: seq<Byte>) | Unreadable | TooLong

  /** The command buffer as read: None when it cannot be. */
  datatype Event =
    | DoConnect(name: PortName)
    | DoSend(handle: nat, message: Option<Parsed>, response: Response, writable: bool)
    | DoClose(handle: nat)

  datatype Outcome = Outcome(table: Table, result: SvcResult, delivered: seq<nat>)

  function Connect(t: Table, sm: ServiceObject, name: PortName): Outcome {
    match name
    case Unreadable => Outcome(t, SvcInvalidPointer, [])
    case TooLong => Outcome(t, SvcOutOfRange, [])
    case Name(bytes) =>
      if bytes != SM_PORT_NAME then Outcome(t, SvcNotFound, [])
      else
        var r := OpenOne(t, sm);
        if r.None? then Outcome(t, SvcOutOfSessions, []) else Outcome(r.value.0, Success, [r.value.1])
  }

  /** A session per object of the response, kept only if the response reaches the guest. */
  function Deliver(t: Table, response: Response, writable: bool): Outcome {
    var r := OpenAll(t, response.outObjects);
    if r.None? then Outcome(t, SvcOutOfSessions, [])
    else if !writable then Outcome(t, SvcInvalidPointer, [])
    else Outcome(r.value.0, Success, r.value.1)
  }

  function Send(t: Table, handle: nat, message: Option<Parsed>, response: Response, writable: bool): Outcome {
    if !IsOpen(t, handle) then Outcome(t, SvcInvalidHandle, [])
    else if t[handle - 1].session.serverClosed then Outcome(t, SvcConnectionClosed, [])
    else if message.None? then Outcome(t, SvcInvalidPointer, [])
    else
      match message.value
      case Refused(error) => Outcome(t, if error == NotImplemented then SvcNotImplemented else SvcInvalidPointer, [])
      case Accepted(CloseMessage(_)) =>
        Outcome(t[handle - 1 := Open(Session(t[handle - 1].session.service, true))], Success, [])
      case Accepted(CommandMessage(_, _, _)) => Deliver(t, response, writable)
  }

  function Close(t: Table, handle: nat): Outcome {
    if IsOpen(t, handle) then Outcome(CloseOne(t, handle), Success, []) else Outcome(t, SvcInvalidHandle, [])
  }

  function Step(t: Table, sm: ServiceObject, e: Event): Outcome {
    match e
    case DoConnect(name) => Connect(t, sm, name)
    case DoSend(handle, message, response, writable) => Send(t, handle, message, response, writable)
    case DoClose(handle) => Close(t, handle)
  }

  // ----- What every step keeps -----

  ghost predicate Closes(e: Event, result: SvcResult, handle: nat) {
    e == DoClose(handle) && result == Success
  }

  /** A step opens exactly what it delivers and closes exactly what it is asked to; a failing one changes nothing. */
  lemma StepHandles(t: Table, sm: ServiceObject, e: Event)
    ensures var o := Step(t, sm, e);
            && (o.result != Success ==> o.table == t && o.delivered == [])
            && (forall h: nat :: IsOpen(o.table, h) <==> (IsOpen(t, h) && !Closes(e, o.result, h)) || h in o.delivered)
            && (forall h :: h in o.delivered ==> 1 <= h <= MAX_SESSIONS && !IsOpen(t, h))
  {
    hide OpenAll;
    if e.DoSend? && OpenAll(t, e.response.outObjects).Some? {
      DeliveredAreFresh(t, e.response.outObjects);
    }
  }

  lemma DeliveredAreFresh(t: Table, objects: seq<ServiceObject>)
    requires OpenAll(t, objects).Some?
    ensures var (t', hs) := OpenAll(t, objects).value;
            && (forall h: nat :: IsOpen(t', h) <==> IsOpen(t, h) || h in hs)
            && (forall h :: h in hs ==> 1 <= h <= MAX_SESSIONS && !IsOpen(t, h))
  {
    OpenAllAdds(t, objects);
    hide OpenAll;
    var (t', hs) := OpenAll(t, objects).value;
    forall h: nat
      ensures IsOpen(t', h) <==> IsOpen(t, h) || h in hs
      ensures h in hs ==> 1 <= h <= MAX_SESSIONS && !IsOpen(t, h)
    {
      if h in hs {
        var i :| 0 <= i < |hs| && hs[i] == h;
      }
    }
  }

  /** Only CloseHandle on the handle itself, or a Close message on it, changes an open session. */
  lemma StepSession(t: Table, sm: ServiceObject, e: Event, handle: nat)
    requires IsOpen(t, handle) && t[handle - 1].session.serverClosed && e != DoClose(handle)
    ensures IsOpen(Step(t, sm, e).table, handle) && Step(t, sm, e).table[handle - 1] == t[handle - 1]
    ensures e.DoSend? && e.handle == handle ==> Step(t, sm, e).result == SvcConnectionClosed
  {
    if e.DoSend? && IsOpen(t, e.handle) && OpenAll(t, e.response.outObjects).Some? {
      OpenAllAdds(t, e.response.outObjects);
      var hs := OpenAll(t, e.response.outObjects).value.1;
      assert forall i :: 0 <= i < |hs| ==> hs[i] != handle;
    }
  }

  // ----- Whole runs -----

  function After(t: Table, sm: ServiceObject, es: seq<Event>): Table
    decreases |es|
  {
    if es == [] then t else Step(After(t, sm, es[..|es| - 1]), sm, es[|es| - 1]).table
  }

  /** The outcome of event i of a run. */
  function OutcomeAt(t: Table, sm: ServiceObject, es: seq<Event>, i: nat): Outcome
    requires i < |es|
  {
    Step(After(t, sm, es[..i]), sm, es[i])
  }

  /** Event i delivered the handle and no later event closed it. */
  ghost predicate DeliveredAndKept(t: Table, sm: ServiceObject, es: seq<Event>, handle: nat, i: nat)
    requires i < |es|
  {
    handle in OutcomeAt(t, sm, es, i).delivered && NotClosed(t, sm, es, handle, i + 1)
  }

  ghost predicate NotClosed(t: Table, sm: ServiceObject, es: seq<Event>, handle: nat, from: nat) {
    forall j: nat :: from <= j < |es| ==> !Closes(es[j], OutcomeAt(t, sm, es, j).result, handle)
  }

  lemma RunPrefix(t: Table, sm: ServiceObject, es: seq<Event>, i: nat)
    requires i < |es| - 1
    ensures OutcomeAt(t, sm, es, i) == OutcomeAt(t, sm, es[..|es| - 1], i)
  {
    assert es[..|es| - 1][..i] == es[..i];
  }

  lemma NotClosedSnoc(t: Table, sm: ServiceObject, es: seq<Event>, handle: nat, from: nat)
    requires es != [] && from < |es|
    ensures NotClosed(t, sm, es, handle, from) <==>
              NotClosed(t, sm, es[..|es| - 1], handle, from)
              && !Closes(es[|es| - 1], OutcomeAt(t, sm, es, |es| - 1).result, handle)
  {
    var n := |es| - 1;
    hide OutcomeAt, Closes;
    forall j: nat | j < n
      ensures OutcomeAt(t, sm, es, j) == OutcomeAt(t, sm, es[..n], j) && es[j] == es[..n][j]
    {
      RunPrefix(t, sm, es, j);
    }
  }

  /**
   Over any run, the open sessions are exactly the handles delivered to the guest (or open at the start)
   and not closed since.
   */
  lemma {:induction false} OpenIffDelivered(t: Table, sm: ServiceObject, es: seq<Event>, handle: nat)
    ensures IsOpen(After(t, sm, es), handle) <==>
              || (IsOpen(t, handle) && NotClosed(t, sm, es, handle, 0))
              || (exists i: nat :: i < |es| && DeliveredAndKept(t, sm, es, handle, i))
    decreases |es|
  {
    if es != [] {
      var n := |es| - 1;
      var before := es[..n];
      OpenIffDelivered(t, sm, before, handle);
      StepHandles(After(t, sm, before), sm, es[n]);
      NotClosedSnoc(t, sm, es, handle, 0);
      LastDelivery(t, sm, es, handle);
    }
  }

  lemma LastDelivery(t: Table, sm: ServiceObject, es: seq<Event>, handle: nat)
    requires es != []
    ensures var n := |es| - 1;
            (exists i: nat :: i < |es| && DeliveredAndKept(t, sm, es, handle, i)) <==>
              || handle in OutcomeAt(t, sm, es, n).delivered
              || (!Closes(es[n], OutcomeAt(t, sm, es, n).result, handle)
                  && exists i: nat :: i < n && DeliveredAndKept(t, sm, es[..n], handle, i))
  {
    var n := |es| - 1;
    var before := es[..n];
    hide OutcomeAt, Closes, NotClosed;
    forall i: nat | i < n
      ensures DeliveredAndKept(t, sm, es, handle, i) <==>
                DeliveredAndKept(t, sm, before, handle, i) && !Closes(es[n], OutcomeAt(t, sm, es, n).result, handle)
    {
      RunPrefix(t, sm, es, i);
      NotClosedSnoc(t, sm, es, handle, i + 1);
    }
    LastKept(t, sm, es, handle);
  }

  lemma LastKept(t: Table, sm: ServiceObject, es: seq<Event>, handle: nat)
    requires es != []
    ensures DeliveredAndKept(t, sm, es, handle, |es| - 1) <==> handle in OutcomeAt(t, sm, es, |es| - 1).delivered
  {
  }

  /** Once a Close message on a handle is accepted, every request on it fails until CloseHandle. */
  lemma {:induction false} ClosedStaysClosed(t: Table, sm: ServiceObject, es: seq<Event>, handle: nat)
    requires IsOpen(t, handle) && t[handle - 1].session.serverClosed
    requires forall j :: 0 <= j < |es| ==> es[j] != DoClose(handle)
    ensures IsOpen(After(t, sm, es), handle) && After(t, sm, es)[handle - 1] == t[handle - 1]
    ensures forall j :: 0 <= j < |es| && es[j].DoSend? && es[j].handle == handle ==>
              OutcomeAt(t, sm, es, j).result == SvcConnectionClosed
    decreases |es|
  {
    hide Step;
    if es != [] {
      var n := |es| - 1;
      ClosedStaysClosed(t, sm, es[..n], handle);
      StepSession(After(t, sm, es[..n]), sm, es[n], handle);
      forall j: nat | j < n
        ensures OutcomeAt(t, sm, es, j) == OutcomeAt(t, sm, es[..n], j)
      {
        RunPrefix(t, sm, es, j);
      }
    }
  }

  /** Accepting a Close message closes the server end of an open session. */
  lemma CloseMessageCloses(t: Table, handle: nat, pid: Option<nat>, response: Response, writable: bool)
    requires Send(t, handle, Some(Accepted(CloseMessage(pid))), response, writable).result == Success
    ensures var t' := Send(t, handle, Some(Accepted(CloseMessage(pid))), response, writable).table;
            IsOpen(t', handle) && t'[handle - 1].session.serverClosed && Handles(t') == Handles(t)
  {
    var t' := Send(t, handle, Some(Accepted(CloseMessage(pid))), response, writable).table;
    forall h: nat
      ensures IsOpen(t', h) <==> IsOpen(t, h)
    {
    }
  }

  // ----- The port name -----

  /** The guest byte at an address, if it can be read. */
  ghost function ByteAt(m: FlatMap, ram: seq<Byte>, gva: nat): Option<Byte> {
    if Translates(m, gva, PERM_R) && Pa(m, gva) < |ram| then Some(ram[Pa(m, gva)]) else None
  }

  /** Byte k of the name; the address wraps like uint64_t. */
  ghost function NameByte(m: FlatMap, ram: seq<Byte>, gva: nat, k: nat): Option<Byte> {
    ByteAt(m, ram, (gva + k) % TWO_TO_THE_64)
  }

  /** A C string of fewer than 12 bytes: every byte up to and including its NUL is readable. */
  ghost predicate IsName(m: FlatMap, ram: seq<Byte>, gva: nat, name: seq<Byte>) {
    && |name| < NAME_MAX_BYTES
    && (forall k: nat :: k < |name| ==> name[k] != 0 && NameByte(m, ram, gva, k) == Some(name[k]))
    && NameByte(m, ram, gva, |name|) == Some(0)
  }

  /** What reading the name up to its NUL finds. */
  ghost predicate NameIs(m: FlatMap, ram: seq<Byte>, gva: nat, name: PortName) {
    match name
    case Name(bytes) => IsName(m, ram, gva, bytes)
    case TooLong => forall k: nat :: k < NAME_MAX_BYTES ==> NameByte(m, ram, gva, k) !in {None, Some(0)}
    case Unreadable =>
      exists n: nat :: n < NAME_MAX_BYTES && NameByte(m, ram, gva, n) == None
                       && forall k: nat :: k < n ==> NameByte(m, ram, gva, k) !in {None, Some(0)}
  }

  /** Only one of the three holds, and a name is determined by memory. */
  lemma NameUnique(m: FlatMap, ram: seq<Byte>, gva: nat, a: PortName, b: PortName)
    requires NameIs(m, ram, gva, a) && NameIs(m, ram, gva, b)
    ensures a == b
  {
    hide NameByte;
    if a.Name? && b.Name? {
      var n, l := |a.bytes|, |b.bytes|;
      var atN, atL := NameByte(m, ram, gva, n), NameByte(m, ram, gva, l);
      assert n == l;
      assert forall k :: 0 <= k < n ==> Some(a.bytes[k]) == NameByte(m, ram, gva, k) == Some(b.bytes[k]);
    }
    var lengthA, lengthB := if a.Name? then |a.bytes| else 0, if b.Name? then |b.bytes| else 0;
    var byteA, byteB := NameByte(m, ram, gva, lengthA), NameByte(m, ram, gva, lengthB);
  }

  // ----- What the SVCs answer -----

  /** The four bytes "sm:" and NUL. */
  ghost predicate NamesSm(m: FlatMap, ram: seq<Byte>, gva: nat) {
    && NameByte(m, ram, gva, 0) == Some(0x73) && NameByte(m, ram, gva, 1) == Some(0x6D)
    && NameByte(m, ram, gva, 2) == Some(0x3A) && NameByte(m, ram, gva, 3) == Some(0)
  }

  /**
   ConnectToNamedPort by what is in memory: only "sm:" is served, as long as one of the 32 handles is free,
   and with the lowest one; twelve bytes without a NUL are too long.
   */
  lemma ConnectMeans(m: FlatMap, ram: seq<Byte>, gva: nat, t: Table, sm: ServiceObject, name: PortName)
    requires NameIs(m, ram, gva, name)
    ensures var o := Connect(t, sm, name);
            && (o.result == SvcOutOfRange <==> forall k: nat :: k < 12 ==> NameByte(m, ram, gva, k) !in {None, Some(0)})
            && (o.result == SvcInvalidPointer <==> NameIs(m, ram, gva, Unreadable))
            && (o.result == Success <==> NamesSm(m, ram, gva) && |Handles(t)| < 32)
            && (o.result == SvcOutOfSessions <==> NamesSm(m, ram, gva) && |Handles(t)| == 32)
            && o.result in {SvcOutOfRange, SvcInvalidPointer, Success, SvcOutOfSessions, SvcNotFound}
    ensures var o := Connect(t, sm, name);
            o.result == Success ==>
              && |o.delivered| == 1 && 1 <= o.delivered[0] <= 32 && !IsOpen(t, o.delivered[0])
              && (forall k :: 1 <= k < o.delivered[0] ==> IsOpen(t, k))
              && o.table == t[o.delivered[0] - 1 := Open(Session(sm, false))]
  {
    FullTable(t);
    OpenOneMeans(t, sm);
    SmIsName(m, ram, gva, name);
    hide OpenOne, NameByte, NamesSm, Handles, IsName;
    if NameIs(m, ram, gva, TooLong) {
      NameUnique(m, ram, gva, name, TooLong);
    }
    if NameIs(m, ram, gva, Unreadable) {
      NameUnique(m, ram, gva, name, Unreadable);
    }
    if name.Name? && name.bytes == SM_PORT_NAME {
      OpenOneIs(t, sm);
    }
  }

  lemma OpenOneIs(t: Table, sm: ServiceObject)
    ensures OpenOne(t, sm).Some? ==>
              var (t', h) := OpenOne(t, sm).value; 1 <= h <= 32 && t' == t[h - 1 := Open(Session(sm, false))]
  {
  }

  lemma SmIsName(m: FlatMap, ram: seq<Byte>, gva: nat, name: PortName)
    requires NameIs(m, ram, gva, name)
    ensures NamesSm(m, ram, gva) <==> name == Name([0x73, 0x6D, 0x3A])
  {
    hide NameByte;
    var sm: seq<Byte> := [0x73, 0x6D, 0x3A];
    if NamesSm(m, ram, gva) {
      assert IsName(m, ram, gva, sm);
      NameUnique(m, ram, gva, name, Name(sm));
    }
    if name == Name(sm) {
      assert sm[0] == 0x73 && sm[1] == 0x6D && sm[2] == 0x3A && |sm| == 3;
    }
  }

  /**
   SendSyncRequest: the handle must be open and its server end too, the buffer readable and understood;
   a command is answered when its objects find free handles and the buffer is writable.
   */
  lemma SendMeans(t: Table, handle: nat, message: Option<Parsed>, response: Response, writable: bool)
    ensures var o := Send(t, handle, message, response, writable);
            var ready := IsOpen(t, handle) && !t[handle - 1].session.serverClosed;
            && (o.result == SvcInvalidHandle <==> !IsOpen(t, handle))
            && (o.result == SvcConnectionClosed <==> IsOpen(t, handle) && t[handle - 1].session.serverClosed)
            && (o.result == SvcNotImplemented <==> ready && message == Some(Refused(NotImplemented)))
            && (o.result == SvcOutOfSessions <==>
                  ready && message.Some? && message.value.Accepted? && message.value.request.CommandMessage?
                  && |Handles(t)| + |response.outObjects| > 32)
            && (o.result == Success <==>
                  ready && message.Some? && message.value.Accepted?
                  && (message.value.request.CloseMessage? || (|Handles(t)| + |response.outObjects| <= 32 && writable)))
            && (o.result == Success && message.value.request.CommandMessage? ==>
                  && Lowest(t, o.delivered) && Added(t, o.table, o.delivered, response.outObjects))
  {
    OpenAllMeans(t, response.outObjects);
    if OpenAll(t, response.outObjects).Some? {
      OpenAllAdds(t, response.outObjects);
    }
    hide OpenAll, Handles, Lowest, Added;
  }

  /** CloseHandle succeeds exactly on an open handle, and then that handle alone is closed. */
  lemma CloseMeans(t: Table, handle: nat)
    ensures var o := Close(t, handle);
            && (o.result == Success <==> 1 <= handle <= 32 && t[handle - 1].Open?)
            && (o.result != Success ==> o.result == SvcInvalidHandle && o.table == t)
            && (o.result == Success ==> Handles(o.table) == Handles(t) - {handle})
            && forall k :: 0 <= k < 32 && k != handle - 1 ==> o.table[k] == t[k]
  {
    var o := Close(t, handle);
    if o.result == Success {
      forall h
        ensures h in Handles(o.table) <==> h in Handles(t) && h != handle
      {
      }
      assert Handles(o.table) == Handles(t) - {handle};
    }
  }

  // ----- The handlers -----

  class IpcService {
    const vmm: Vmm
    const sessions: SessionTable
    const sm: ServiceObject
    const tls: nat

    ghost function Repr(): set<object> {
      vmm.Repr() + sessions.Repr()
    }

    /** Every service a session is bound to has a sorted command table. */
    ghost predicate SortedServices(t: Table) {
      forall k :: 0 <= k < MAX_SESSIONS && t[k].Open? && t[k].session.service.Bound? ==>
          Sorted(t[k].session.service.commands)
    }

    ghost predicate Valid()
      reads Repr()
    {
      && vmm.Repr() !! sessions.Repr() && vmm.Valid() && sessions.Valid()
      && tls < TWO_TO_THE_64 && SortedServices(sessions.Now())
      && (sm.Bound? ==> Sorted(sm.commands))
    }

    constructor (vmm: Vmm, sessions: SessionTable, sm: ServiceObject, tls: nat)
      requires vmm.Valid() && sessions.Valid() && vmm.Repr() !! sessions.Repr() && tls < TWO_TO_THE_64
      requires Handles(sessions.Now()) == {} && (sm.Bound? ==> Sorted(sm.commands))
      ensures Valid() && this.vmm == vmm && this.sessions == sessions && this.sm == sm && this.tls == tls
    {
      this.vmm, this.sessions, this.sm, this.tls := vmm, sessions, sm, tls;
      new;
      NothingOpen(sessions.Now());
    }

    /** Reads the port name byte by byte up to its NUL. */
    method ReadPortName(gva: U64) returns (name: PortName)
      requires vmm.Valid()
      modifies vmm`lastFault
      ensures vmm.Valid() && NameIs(vmm.flat, vmm.ram[..], gva, name)
    {
      hide Vmm.Valid, Backed, Loaded;
      var bytes: seq<Byte> := [];
      while true
        invariant |bytes| <= NAME_MAX_BYTES && vmm.Valid()
        invariant forall k: nat :: k < |bytes| ==>
                bytes[k] != 0 && NameByte(vmm.flat, vmm.ram[..], gva, k) == Some(bytes[k])
        decreases NAME_MAX_BYTES - |bytes|
      {
        if |bytes| == NAME_MAX_BYTES {
          return TooLong;
        }
        var at: U64 := (gva + |bytes|) % TWO_TO_THE_64;
        OneByte(at);
        var e, out := vmm.ReadBlock(at, 1);
        ghost var byte := NameByte(vmm.flat, vmm.ram[..], gva, |bytes|);
        if e != Ok {
          assert byte == None;
          return Unreadable;
        }
        if out[0] == 0 {
          return Name(bytes);
        }
        bytes := bytes + out;
      }
    }

    /** A one-byte block read reads that byte. */
    lemma OneByte(gva: nat)
      requires vmm.Valid()
      ensures Accessible(vmm.flat, gva, 1, PERM_R) <==> ByteAt(vmm.flat, vmm.ram[..], gva).Some?
      ensures Accessible(vmm.flat, gva, 1, PERM_R) ==>
                Backed(vmm.flat, gva, 1, vmm.ram.Length)
                    && Loaded(vmm.flat, vmm.ram[..], gva, 1) == [ByteAt(vmm.flat, vmm.ram[..], gva).value]
    {
      if Accessible(vmm.flat, gva, 1, PERM_R) {
        vmm.BackedWhen(gva, 1, PERM_R);
        assert Translates(vmm.flat, gva, PERM_R);
        var loaded := Loaded(vmm.flat, vmm.ram[..], gva, 1);
        assert loaded[0] == vmm.ram[Pa(vmm.flat, gva)];
      }
    }

    /** hle_svc_connect_to_named_port; X1 is the handle. */
    method ConnectToNamedPort(nameGva: U64) returns (result: SvcResult, x1: nat, ghost name: PortName)
      requires Valid()
      modifies vmm`lastFault, sessions.Repr()
      ensures Valid() && NameIs(vmm.flat, vmm.ram[..], nameGva, name)
      ensures var o := Connect(old(sessions.Now()), sm, name);
              sessions.Now() == o.table && result == o.result && (result == Success ==> o.delivered == [x1])
    {
      hide Vmm.Valid, NameIs, Sorted;
      var read := ReadPortName(nameGva);
      name := read;
      x1 := 0;
      match read {
        case TooLong => return SvcOutOfRange, x1, name;
        case Unreadable => return SvcInvalidPointer, x1, name;
        case Name(bytes) =>
          if bytes != SM_PORT_NAME {
            return SvcNotFound, x1, name;
          }
      }
      x1 := sessions.OpenSession(sm);
      result := if x1 == INVALID_HANDLE then SvcOutOfSessions else Success;
    }

    /** hle_svc_close_handle. */
    method CloseHandle(handle: nat) returns (result: SvcResult)
      requires Valid()
      modifies sessions.Repr()
      ensures Valid()
      ensures var o := Close(old(sessions.Now()), handle); sessions.Now() == o.table && result == o.result
    {
      hide Vmm.Valid, Sorted;
      var closed := sessions.CloseSession(handle);
      result := if closed then Success else SvcInvalidHandle;
    }

    /** The command buffer of the main thread, as read. */
    ghost function Message(): Option<Parsed>
      requires vmm.Valid()
      reads vmm, vmm.l1, vmm.pool, vmm.counts, vmm.ram
    {
      if Accessible(vmm.flat, tls, BUFFER_BYTES, PERM_R) then
        (vmm.BackedWhen(tls, BUFFER_BYTES, PERM_R);
         Some(Meaning(Loaded(vmm.flat, vmm.ram[..], tls, BUFFER_BYTES))))
      else None
    }

    /** Handlers hand out services whose command tables are sorted. */
    ghost predicate HandlersSorted(handlers: Handlers) {
      forall h, i, r :: forall s :: s in handlers(h, i, r).outObjects && s.Bound? ==> Sorted(s.commands)
    }

    /**
     hle_svc_send_sync_request. The response is the one the dispatched command gives; a response that reaches
     the guest's buffer reads back as its result and the handles opened for it, and one that does not leaves
     both memory and session table as they were.
     */
    method SendSyncRequest(handle: nat, handlers: Handlers)
      returns (result: SvcResult, ghost response: Response, ghost written: seq<Byte>)
      requires Valid() && HandlersSorted(handlers)
      modifies vmm`lastFault, vmm.ram, sessions.Repr()
      ensures Valid()
      ensures var writable := Accessible(vmm.flat, tls, BUFFER_BYTES, PERM_W);
              var o := Send(old(sessions.Now()), handle, old(Message()), response, writable);
              sessions.Now() == o.table && result == o.result
              && (result == Success && old(Message()).value.request.CommandMessage? ==>
                    Answered(old(vmm.ram[..]), vmm.ram[..], response, o.delivered, written))
      ensures IsOpen(old(sessions.Now()), handle) && old(Message()).Some? && old(Message()).value.Accepted?
              && old(Message()).value.request.CommandMessage?
              && !old(sessions.Now())[handle - 1].session.serverClosed ==>
                var service := old(sessions.Now())[handle - 1].session.service;
                IsReply(service, old(Message()).value.request, handlers, response)
      ensures result != Success || old(Message()).value.request.CloseMessage? ==> vmm.ram[..] == old(vmm.ram[..])
    {
      hide Vmm.Valid, Sorted, IsReply, Meaning, Accessible, Loaded, Answered, Backed, Deliver, HandlersSorted;
      response, written := NO_SUCH_COMMAND, [];
      ghost var t := sessions.Now();
      var slot := sessions.GetSession(handle);
      if slot.None? {
        return SvcInvalidHandle, response, written;
      }
      var session := sessions.sessions[slot.value];
      if session.serverClosed {
        return SvcConnectionClosed, response, written;
      }
      var e, buffer := vmm.ReadBlock(tls, BUFFER_BYTES);
      if e != Ok {
        return SvcInvalidPointer, response, written;
      }
      var parsed := ParseRequest(buffer);
      assert Some(parsed) == old(Message());
      if parsed.Refused? {
        return if parsed.error == NotImplemented then SvcNotImplemented else SvcInvalidPointer, response, written;
      }
      if parsed.request.CloseMessage? {
        sessions.MarkServerClosed(slot.value);
        return Success, response, written;
      }
      var reply := Dispatch(session.service, parsed.request, handlers);
      response := reply;
      ReplySorted(session.service, parsed.request, handlers, reply);
      result, written := Respond(reply);
    }

    /** The response lies in the guest's buffer, and reads back as its result and handles. */
    ghost predicate Answered(was: seq<Byte>, ram: seq<Byte>, response: Response, delivered: seq<nat>,
                             written: seq<Byte>)
      reads vmm
    {
      && |written| == BUFFER_BYTES && Backed(vmm.flat, tls, BUFFER_BYTES, |was|)
      && ram == Stored(vmm.flat, was, tls, written)
      && ReadResult(written) == Some(response.result) && ReadHandles(written) == delivered
    }

    /** Opens the response's sessions, serialises it and writes it back; any failure takes everything back. */
    method Respond(reply: Response) returns (result: SvcResult, ghost written: seq<Byte>)
      requires Valid() && forall s :: s in reply.outObjects && s.Bound? ==> Sorted(s.commands)
      modifies vmm`lastFault, vmm.ram, sessions.Repr()
      ensures Valid()
      ensures var o := Deliver(old(sessions.Now()), reply, Accessible(vmm.flat, tls, BUFFER_BYTES, PERM_W));
              sessions.Now() == o.table && result == o.result
              && (result == Success ==> Answered(old(vmm.ram[..]), vmm.ram[..], reply, o.delivered, written))
      ensures result != Success ==> vmm.ram[..] == old(vmm.ram[..])
    {
      hide Vmm.Valid, Sorted, Accessible, Stored, Backed, ReadResult, ReadHandles, OpenAll, CloseAll, ResponseWord,
           Word;
      written := [];
      ghost var t := sessions.Now();
      var ok, handles := sessions.OpenSessions(reply.outObjects);
      if !ok {
        return SvcOutOfSessions, written;
      }
      OpenAllAdds(t, reply.outObjects);
      OpenedSorted(t, reply.outObjects);
      var out := new Byte[BUFFER_BYTES](_ => 0);
      var e := WriteResponse(out, reply, handles);
      assert e == Ok;
      ResponseReadsBack(out[..], reply.result, handles);
      written := out[..];
      e := vmm.WriteBlock(tls, out[..]);
      if e != Ok {
        RollbackRestores(t, reply.outObjects);
        sessions.CloseHandles(handles);
        return SvcInvalidPointer, written;
      }
      result := Success;
    }

    lemma OpenedSorted(t: Table, objects: seq<ServiceObject>)
      requires SortedServices(t) && OpenAll(t, objects).Some?
      requires forall s :: s in objects && s.Bound? ==> Sorted(s.commands)
      ensures SortedServices(OpenAll(t, objects).value.0)
    {
      hide Sorted;
      OpenAllAdds(t, objects);
      var (t', hs) := OpenAll(t, objects).value;
      forall k | 0 <= k < MAX_SESSIONS && t'[k].Open? && t'[k].session.service.Bound?
        ensures Sorted(t'[k].session.service.commands)
      {
        if k + 1 in hs {
          var i :| 0 <= i < |hs| && hs[i] == k + 1;
          assert t'[hs[i] - 1].session.service in objects;
        }
      }
    }

    lemma ReplySorted(service: ServiceObject, request: Request, handlers: Handlers, reply: Response)
      requires request.CommandMessage? && HandlersSorted(handlers) && IsReply(service, request, handlers, reply)
      ensures forall s :: s in reply.outObjects && s.Bound? ==> Sorted(s.commands)
    {
    }
  }

  lemma NothingOpen(t: Table)
    requires Handles(t) == {}
    ensures forall k :: 0 <= k < MAX_SESSIONS ==> t[k].Free?
  {
    forall k | 0 <= k < MAX_SESSIONS
      ensures t[k].Free?
    {
      assert k + 1 !in Handles(t);
    }
  }
}
