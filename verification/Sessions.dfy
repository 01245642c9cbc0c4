/** The session table (core/hle/kernel/ipc.c): 32 slots, handle = slot + 1, 0 is never a handle. */
module SessionTables {
  import opened Results

  const MAX_SESSIONS: nat := 32
  const INVALID_HANDLE: nat := 0

  /** A command of an interface; handlers are identified by number. */
  datatype Command = Command(id: nat, handler: nat)

  /** An object without an interface has no commands at all. */
  datatype ServiceObject = Unbound | Bound(commands: seq<Command>, instance: nat)

  datatype Session = Session(service: ServiceObject, serverClosed: bool)

  datatype Slot = Free | Open(session: Session)

  type Table = t: seq<Slot> | |t| == MAX_SESSIONS witness seq(MAX_SESSIONS, _ => Free)

  // ----- The table as a value -----

  predicate IsOpen(t: Table, handle: nat) {
    1 <= handle <= MAX_SESSIONS && t[handle - 1].Open?
  }

  ghost function Handles(t: Table): set<nat> {
    set h | 1 <= h <= MAX_SESSIONS && IsOpen(t, h)
  }

  function FirstFree(t: seq<Slot>): (i: nat)
    ensures i <= |t| && (i < |t| ==> t[i].Free?)
    ensures forall k :: 0 <= k < i ==> t[k].Open?
  {
    if t == [] then 0
    else if t[0].Free? then 0
    else
      var i := FirstFree(t[1..]);
      assert forall k :: 1 <= k <= i ==> t[k] == t[1..][k - 1];
      i + 1
  }

  /** The lowest free slot is taken; None when there is none. */
  function OpenOne(t: Table, service: ServiceObject): Option<(Table, nat)> {
    var i := FirstFree(t);
    if i == MAX_SESSIONS then None else Some((t[i := Open(Session(service, false))], i + 1))
  }

  function CloseOne(t: Table, handle: nat): Table {
    if IsOpen(t, handle) then t[handle - 1 := Free] else t
  }

  /** A session per object, in order; None when they do not all fit. */
  function OpenAll(t: Table, objects: seq<ServiceObject>): Option<(Table, seq<nat>)>
  {
    if objects == [] then Some((t, []))
    else
      var n := |objects| - 1;
      var rest := OpenAll(t, objects[..n]);
      if rest.None? then None
      else
        var last := OpenOne(rest.value.0, objects[n]);
        if last.None? then None else Some((last.value.0, rest.value.1 + [last.value.1]))
  }

  function CloseAll(t: Table, handles: seq<nat>): Table
    decreases |handles|
  {
    if handles == [] then t else CloseAll(CloseOne(t, handles[0]), handles[1..])
  }

  /**
   t' is t with a new session per object at the handles hs: all different, none open before; the rest is untouched.
   */
  ghost predicate Added(t: Table, t': Table, hs: seq<nat>, objects: seq<ServiceObject>) {
    && |hs| == |objects|
    && (forall i :: 0 <= i < |hs| ==>
          1 <= hs[i] <= MAX_SESSIONS && !IsOpen(t, hs[i]) && t'[hs[i] - 1] == Open(Session(objects[i], false)))
    && (forall i, j :: 0 <= i < j < |hs| ==> hs[i] != hs[j])
    && (forall k :: 0 <= k < MAX_SESSIONS && k + 1 !in hs ==> t'[k] == t[k])
  }

  lemma AddedSnoc(t: Table, t1: Table, hs: seq<nat>, objects: seq<ServiceObject>, service: ServiceObject, h: nat)
    requires Added(t, t1, hs, objects) && 1 <= h <= MAX_SESSIONS && t1[h - 1].Free?
    ensures Added(t, t1[h - 1 := Open(Session(service, false))], hs + [h], objects + [service])
  {
    var t', more := t1[h - 1 := Open(Session(service, false))], hs + [h];
    assert forall i :: 0 <= i < |hs| ==> t1[hs[i] - 1].Open? && more[i] == hs[i];
    assert h !in hs;
    forall k | 0 <= k < MAX_SESSIONS && k + 1 !in more
      ensures t'[k] == t[k]
    {
      assert more[|hs|] == h;
      assert k + 1 in hs ==> k + 1 in more;
    }
  }

  /** Opening adds exactly the new handles. */
  lemma {:induction false} OpenAllAdds(t: Table, objects: seq<ServiceObject>)
    requires OpenAll(t, objects).Some?
    ensures Added(t, OpenAll(t, objects).value.0, OpenAll(t, objects).value.1, objects)
    decreases |objects|
  {
    hide OpenOne, Added;
    if objects == [] {
      NothingAdded(t);
    } else {
      var n := |objects| - 1;
      OpenAllAdds(t, objects[..n]);
      var (t1, hs) := OpenAll(t, objects[..n]).value;
      OpenOneAdds(t1, objects[n]);
      AddedSnoc(t, t1, hs, objects[..n], objects[n], OpenOne(t1, objects[n]).value.1);
      assert objects[..n] + [objects[n]] == objects;
    }
  }

  lemma NothingAdded(t: Table)
    ensures Added(t, t, [], [])
  {
  }

  lemma OpenOneAdds(t: Table, service: ServiceObject)
    requires OpenOne(t, service).Some?
    ensures var (t', h) := OpenOne(t, service).value;
            1 <= h <= MAX_SESSIONS && t[h - 1].Free? && t' == t[h - 1 := Open(Session(service, false))]
  {
  }

  lemma {:induction false} CloseAllFrees(t: Table, handles: seq<nat>, k: nat)
    requires k < MAX_SESSIONS
    ensures CloseAll(t, handles)[k] == if k + 1 in handles then Free else t[k]
    decreases |handles|
  {
    if handles != [] {
      CloseAllFrees(CloseOne(t, handles[0]), handles[1..], k);
      assert k + 1 in handles <==> k + 1 == handles[0] || k + 1 in handles[1..];
    }
  }

  /** Rolling back a response restores the table exactly. */
  lemma RollbackRestores(t: Table, objects: seq<ServiceObject>)
    requires OpenAll(t, objects).Some?
    ensures CloseAll(OpenAll(t, objects).value.0, OpenAll(t, objects).value.1) == t
  {
    OpenAllAdds(t, objects);
    var (t', hs) := OpenAll(t, objects).value;
    forall k | 0 <= k < MAX_SESSIONS
      ensures CloseAll(t', hs)[k] == t[k]
    {
      CloseAllFrees(t', hs, k);
      if k + 1 in hs {
        var i :| 0 <= i < |hs| && hs[i] == k + 1;
        assert !IsOpen(t, hs[i]);
      }
    }
  }

  /** Opening some objects fails when opening a prefix of them does. */
  lemma {:induction false} OpenPrefixFails(t: Table, objects: seq<ServiceObject>, i: nat)
    requires i <= |objects| && OpenAll(t, objects[..i]).None?
    ensures OpenAll(t, objects).None?
    decreases |objects|
  {
    if i < |objects| {
      var n := |objects| - 1;
      assert objects[..n][..i] == objects[..i];
      OpenPrefixFails(t, objects[..n], i);
    } else {
      assert objects[..i] == objects;
    }
  }

  lemma OpenStep(t: Table, objects: seq<ServiceObject>, i: nat)
    requires i < |objects| && OpenAll(t, objects[..i]).Some?
    ensures OpenAll(t, objects[..i + 1]) ==
            var rest := OpenAll(t, objects[..i]).value;
            var last := OpenOne(rest.0, objects[i]);
            if last.None? then None else Some((last.value.0, rest.1 + [last.value.1]))
  {
    assert objects[..i + 1][..i] == objects[..i];
  }

  // ----- When sessions can be opened, and which handles they get -----

  ghost function UpTo(n: nat): (s: set<nat>)
    ensures |s| == n && forall h :: h in s <==> 1 <= h <= n
  {
    if n == 0 then {} else UpTo(n - 1) + {n}
  }

  lemma SubsetSize(a: set<nat>, b: set<nat>)
    requires a <= b
    ensures |a| <= |b| && (|a| == |b| ==> a == b)
  {
    assert b == a + (b - a);
  }

  /** A full table has 32 open handles. */
  lemma FullTable(t: Table)
    ensures |Handles(t)| <= 32
    ensures |Handles(t)| == 32 <==> forall h :: 1 <= h <= 32 ==> IsOpen(t, h)
  {
    SubsetSize(Handles(t), UpTo(32));
    if forall h :: 1 <= h <= 32 ==> IsOpen(t, h) {
      assert Handles(t) == UpTo(32);
    } else {
      var h :| 1 <= h <= 32 && !IsOpen(t, h);
      assert h !in Handles(t) && h in UpTo(32);
    }
  }

  /** One more session: refused exactly when all 32 are open, else at the lowest handle that is not. */
  lemma OpenOneMeans(t: Table, service: ServiceObject)
    ensures OpenOne(t, service).None? <==> |Handles(t)| == 32
    ensures OpenOne(t, service).Some? ==>
              var (t', h) := OpenOne(t, service).value;
              && 1 <= h <= 32 && !IsOpen(t, h) && (forall k :: 1 <= k < h ==> IsOpen(t, k))
              && Handles(t') == Handles(t) + {h} && |Handles(t')| == |Handles(t)| + 1
              && t'[h - 1] == Open(Session(service, false)) && forall k :: 0 <= k < 32 && k != h - 1 ==> t'[k] == t[k]
  {
    FullTable(t);
    if OpenOne(t, service).Some? {
      var (t', h) := OpenOne(t, service).value;
      assert t[h - 1].Free?;
      forall k | 1 <= k < h
        ensures IsOpen(t, k)
      {
        assert t[k - 1].Open?;
      }
      assert !IsOpen(t, h);
      assert forall k :: 1 <= k <= 32 ==> (IsOpen(t', k) <==> IsOpen(t, k) || k == h);
      assert Handles(t') == Handles(t) + {h} && h !in Handles(t);
    } else {
      forall h | 1 <= h <= 32
        ensures IsOpen(t, h)
      {
        assert t[h - 1].Open?;
      }
    }
  }

  /** The handles ascend, and no handle that was free is passed over. */
  ghost predicate Lowest(t: Table, hs: seq<nat>) {
    && (forall i, j :: 0 <= i < j < |hs| ==> hs[i] < hs[j])
    && (forall i, h :: 0 <= i < |hs| && 1 <= h < hs[i] ==> IsOpen(t, h) || h in hs)
  }

  /** All of them get a session exactly when that many handles are free, and they get the lowest, in order. */
  lemma {:induction false} OpenAllMeans(t: Table, objects: seq<ServiceObject>)
    ensures OpenAll(t, objects).Some? <==> |Handles(t)| + |objects| <= 32
    ensures OpenAll(t, objects).Some? ==>
              var (t', hs) := OpenAll(t, objects).value;
              |Handles(t')| == |Handles(t)| + |objects| && Lowest(t, hs)
    decreases |objects|
  {
    hide OpenOne, Handles;
    FullTable(t);
    if objects != [] {
      var n := |objects| - 1;
      OpenAllMeans(t, objects[..n]);
      if OpenAll(t, objects[..n]).Some? {
        OpenAllAdds(t, objects[..n]);
        var (t1, hs) := OpenAll(t, objects[..n]).value;
        FullTable(t1);
        OpenOneMeans(t1, objects[n]);
        if OpenOne(t1, objects[n]).Some? {
          var h := OpenOne(t1, objects[n]).value.1;
          LowestSnoc(t, t1, hs, objects[..n], h);
        }
      }
    }
  }

  lemma LowestSnoc(t: Table, t1: Table, hs: seq<nat>, objects: seq<ServiceObject>, h: nat)
    requires Added(t, t1, hs, objects) && Lowest(t, hs) && 1 <= h <= 32 && !IsOpen(t1, h)
    requires forall k :: 1 <= k < h ==> IsOpen(t1, k)
    ensures Lowest(t, hs + [h])
  {
    var more := hs + [h];
    forall i | 0 <= i < |hs|
      ensures hs[i] < h
    {
      assert t1[hs[i] - 1].Open? && IsOpen(t1, hs[i]);
      if h < hs[i] {
        assert IsOpen(t, h) || h in hs;
        NotTaken(t, t1, hs, objects, h);
      }
    }
    forall i, k | 0 <= i < |more| && 1 <= k < more[i]
      ensures IsOpen(t, k) || k in more
    {
      assert IsOpen(t1, k);
      if k in hs {
        var j :| 0 <= j < |hs| && hs[j] == k;
        assert more[j] == k;
      } else {
        assert t1[k - 1] == t[k - 1];
      }
    }
  }

  lemma NotTaken(t: Table, t1: Table, hs: seq<nat>, objects: seq<ServiceObject>, h: nat)
    requires Added(t, t1, hs, objects) && 1 <= h <= 32 && !IsOpen(t1, h)
    ensures !IsOpen(t, h) && h !in hs
  {
    forall i | 0 <= i < |hs|
      ensures hs[i] != h
    {
      assert t1[hs[i] - 1].Open?;
    }
    assert h !in hs ==> t1[h - 1] == t[h - 1];
  }

  // ----- The table in place -----

  class SessionTable {
    const sessions: array<Session>
    const inUse: array<bool>

    ghost function Repr(): set<object> {
      {this, sessions, inUse}
    }

    ghost predicate Valid() {
      sessions.Length == MAX_SESSIONS && inUse.Length == MAX_SESSIONS
    }

    ghost function Now(): Table
      requires Valid()
      reads sessions, inUse
    {
      seq(MAX_SESSIONS, (i: nat) requires i < MAX_SESSIONS reads sessions, inUse =>
          if inUse[i] then Open(sessions[i]) else Free)
    }

    constructor ()
      ensures Valid() && Handles(Now()) == {} && fresh(sessions) && fresh(inUse)
    {
      sessions := new Session[MAX_SESSIONS](_ => Session(Unbound, false));
      inUse := new bool[MAX_SESSIONS](_ => false);
    }

    /** ipc_session_table_open. */
    method OpenSession(service: ServiceObject) returns (handle: nat)
      requires Valid()
      modifies sessions, inUse
      ensures var r := OpenOne(old(Now()), service);
              if r.None? then handle == INVALID_HANDLE && Now() == old(Now())
              else handle == r.value.1 && Now() == r.value.0
    {
      ghost var t := Now();
      for i := 0 to MAX_SESSIONS
        invariant forall k :: 0 <= k < i ==> inUse[k]
        invariant Now() == t
      {
        assert t[i].Free? <==> !inUse[i];
        if inUse[i] {
          continue;
        }
        FirstFreeIs(t, i);
        inUse[i] := true;
        sessions[i] := Session(service, false);
        assert Now() == t[i := Open(Session(service, false))];
        return i + 1;
      }
      FirstFreeIs(t, MAX_SESSIONS);
      handle := INVALID_HANDLE;
    }

    /** ipc_session_table_get: the slot of an open handle. */
    method GetSession(handle: nat) returns (slot: Option<nat>)
      requires Valid()
      ensures slot == if IsOpen(Now(), handle) then Some(handle - 1) else None
      ensures slot.Some? ==> slot.value < MAX_SESSIONS && Now()[slot.value] == Open(sessions[slot.value])
    {
      if handle == INVALID_HANDLE || handle > MAX_SESSIONS {
        return None;
      }
      if !inUse[handle - 1] {
        return None;
      }
      slot := Some(handle - 1);
    }

    /** ipc_session_table_close. */
    method CloseSession(handle: nat) returns (closed: bool)
      requires Valid()
      modifies sessions, inUse
      ensures closed == IsOpen(old(Now()), handle)
      ensures Now() == CloseOne(old(Now()), handle)
    {
      ghost var t := Now();
      if handle == INVALID_HANDLE || handle > MAX_SESSIONS {
        return false;
      }
      if !inUse[handle - 1] {
        return false;
      }
      inUse[handle - 1] := false;
      sessions[handle - 1] := Session(Unbound, false);
      assert Now() == t[handle - 1 := Free];
      closed := true;
    }

    /** The server end goes away; the handle stays open. */
    method MarkServerClosed(slot: nat)
      requires Valid() && slot < MAX_SESSIONS && Now()[slot].Open?
      modifies sessions
      ensures Now() == old(Now())[slot := Open(Session(old(Now())[slot].session.service, true))]
    {
      sessions[slot] := Session(sessions[slot].service, true);
    }

    /** close_handles: every handle of a response that is rolled back is open. */
    method CloseHandles(handles: seq<nat>)
      requires Valid() && forall i :: 0 <= i < |handles| ==> IsOpen(Now(), handles[i])
      requires forall i, j :: 0 <= i < j < |handles| ==> handles[i] != handles[j]
      modifies sessions, inUse
      ensures Now() == CloseAll(old(Now()), handles)
    {
      ghost var goal := CloseAll(Now(), handles);
      for i := 0 to |handles|
        invariant CloseAll(Now(), handles[i..]) == goal
        invariant forall j :: i <= j < |handles| ==> IsOpen(Now(), handles[j])
      {
        assert handles[i..][1..] == handles[i + 1..];
        var closed := CloseSession(handles[i]);
        assert closed;
      }
    }

    /** A session per object; when they do not all fit, those already opened are closed again. */
    method OpenSessions(objects: seq<ServiceObject>) returns (ok: bool, handles: seq<nat>)
      requires Valid()
      modifies sessions, inUse
      ensures var r := OpenAll(old(Now()), objects);
              if r.None? then !ok && Now() == old(Now()) else ok && Now() == r.value.0 && handles == r.value.1
    {
      handles := [];
      ghost var t := Now();
      assert objects[..0] == [];
      for i := 0 to |objects|
        invariant OpenAll(t, objects[..i]) == Some((Now(), handles))
      {
        OpenStep(t, objects, i);
        var handle := OpenSession(objects[i]);
        if handle == INVALID_HANDLE {
          OpenPrefixFails(t, objects, i + 1);
          OpenAllAdds(t, objects[..i]);
          RollbackRestores(t, objects[..i]);
          CloseHandles(handles);
          return false, handles;
        }
        handles := handles + [handle];
      }
      assert objects[..|objects|] == objects;
      ok := true;
    }
  }

  lemma FirstFreeIs(t: seq<Slot>, i: nat)
    requires i <= |t| && (i < |t| ==> t[i].Free?)
    requires forall k :: 0 <= k < i ==> t[k].Open?
    ensures FirstFree(t) == i
  {
  }
}
