// The list of locks of a volume (src/locks.c) and the packets that change it
// (src/lock.c, src/find.c, src/object.c), as steps on values and as methods on
// the list.
module Locks {
  const CHANGE_LOCK := 0
  const CHANGE_FH := 1

  // fl_Access: act_FINDOUTPUT stores MODE_NEWFILE there (src/find.c:427, 497-501).
  datatype Access = Shared | Exclusive | NewFile

  // The mode a caller asks for
  datatype Mode = SharedLock | ExclusiveLock | OtherMode

  // A lock is known by its address, and a handle by its number.
  datatype Lock = Lock(id: nat, key: int, access: Access)
  datatype Handle = Handle(id: nat, lock: nat)

  datatype State = State(locks: seq<Lock>, handles: seq<Handle>, nextId: nat, rootKey: int)

  datatype Result = Done | InUse | WrongType | BadMode | SoftLink | InvalidLock | NotFound | Nothing

  datatype Event =
    | LocateRoot(mode: Mode)                                // the empty path
    | Locate(key: int, link: bool, mode: Mode)              // act_LOCATE_OBJECT, act_PARENT
    | Copy(lock: nat)                                       // act_COPY_DIR
    | FindReadWrite(key: int, regular: bool, exclusive: bool) // act_FINDUPDATE, act_FINDINPUT
    | FindOutput(found: bool, oldKey: int, regular: bool, key: int)
    | CreateDir(key: int)
    | FhFromLock(lock: nat, regular: bool)
    | ChangeMode(objType: int, handle: nat, mode: Mode)
    | End(handle: nat)
    | Free(lock: nat)

  // ---- The list -------------------------------------------------------------------

  // lock_Lookup
  function Find(locks: seq<Lock>, id: nat): (i: nat)
    ensures i <= |locks|
    ensures i < |locks| ==> locks[i].id == id
    ensures forall j :: 0 <= j < i ==> locks[j].id != id
  {
    if locks == [] || locks[0].id == id then 0 else 1 + Find(locks[1..], id)
  }

  // lock_LookupFromKey
  function FirstOf(locks: seq<Lock>, key: int): (i: nat)
    ensures i <= |locks|
    ensures i < |locks| ==> locks[i].key == key
    ensures forall j :: 0 <= j < i ==> locks[j].key != key
  {
    if locks == [] || locks[0].key == key then 0 else 1 + FirstOf(locks[1..], key)
  }

  // lock_NumLocksFromKey
  function NumOf(locks: seq<Lock>, key: int): nat {
    if locks == [] then 0 else (if locks[0].key == key then 1 else 0) + NumOf(locks[1..], key)
  }

  // fh_Lookup
  function FindHandle(handles: seq<Handle>, id: nat): (i: nat)
    ensures i <= |handles|
    ensures i < |handles| ==> handles[i].id == id
    ensures forall j :: 0 <= j < i ==> handles[j].id != id
  {
    if handles == [] || handles[0].id == id then 0 else 1 + FindHandle(handles[1..], id)
  }

  function Without<T>(s: seq<T>, i: nat): (r: seq<T>)
    requires i < |s|
    ensures |r| == |s| - 1
    ensures forall j :: 0 <= j < |r| ==> r[j] == s[if j < i then j else j + 1]
  {
    s[..i] + s[i + 1..]
  }

  predicate Locked(s: State, key: int) {
    FirstOf(s.locks, key) < |s.locks|
  }

  // ---- Steps -----------------------------------------------------------------------

  // lock_Create and lock_Insert
  function Insert(s: State, key: int, access: Access): State {
    s.(locks := [Lock(s.nextId, key, access)] + s.locks, nextId := s.nextId + 1)
  }

  function AddHandle(s: State, lock: nat): State {
    s.(handles := [Handle(s.nextId, lock)] + s.handles, nextId := s.nextId + 1)
  }

  function LocateStep(s: State, key: int, link: bool, mode: Mode): (State, Result) {
    var i := FirstOf(s.locks, key);
    if mode == OtherMode then (s, BadMode)
    else if i < |s.locks| then
      if s.locks[i].access != Shared || mode != SharedLock then (s, InUse) else (Insert(s, key, Shared), Done)
    else if link then (s, SoftLink)
    else (Insert(s, key, if mode == SharedLock then Shared else Exclusive), Done)
  }

  function FindReadWriteStep(s: State, key: int, regular: bool, exclusive: bool): (State, Result) {
    var i := FirstOf(s.locks, key);
    if !regular then (s, WrongType)
    else if i < |s.locks| && (exclusive || s.locks[i].access == Exclusive) then (s, InUse)
    else
      var s' := Insert(s, key, if exclusive then Exclusive else Shared);
      (AddHandle(s', s.nextId), Done)
  }

  function FindOutputStep(s: State, found: bool, oldKey: int, regular: bool, key: int): (State, Result) {
    if found && !regular then (s, WrongType)
    else if found && Locked(s, oldKey) then (s, InUse)
    else (AddHandle(Insert(s, key, NewFile), s.nextId), Done)
  }

  function ChangeModeStep(s: State, objType: int, handle: nat, mode: Mode): (State, Result) {
    if !(objType == CHANGE_FH || objType != CHANGE_LOCK) || mode == OtherMode then (s, WrongType)
    else if objType != CHANGE_FH then (s, Nothing)
    else
      var h := FindHandle(s.handles, handle);
      if h == |s.handles| then (s, NotFound)
      else
        var i := Find(s.locks, s.handles[h].lock);
        if i == |s.locks| then (s, Nothing) // freed behind the handle's back
        else
          var access := if mode == SharedLock then Shared else Exclusive;
          if s.locks[i].access == access then (s, Done)
          else if NumOf(s.locks, s.locks[i].key) > 1 then (s, InUse)
          else (s.(locks := s.locks[i := s.locks[i].(access := access)]), Done)
  }

  function EndStep(s: State, handle: nat): (State, Result) {
    var h := FindHandle(s.handles, handle);
    if h == |s.handles| then (s, NotFound)
    else
      var i := Find(s.locks, s.handles[h].lock);
      (s.(locks := if i == |s.locks| then s.locks else Without(s.locks, i), handles := Without(s.handles, h)), Done)
  }

  function Step(s: State, e: Event): (State, Result) {
    match e
    case LocateRoot(mode) =>
      if mode == OtherMode then (s, BadMode)
      else if mode != SharedLock then (s, InUse)
      else (Insert(s, s.rootKey, Shared), Done)
    case Locate(key, link, mode) => LocateStep(s, key, link, mode)
    case Copy(lock) =>
      var i := Find(s.locks, lock);
      if i == |s.locks| then (s, InvalidLock)
      else if s.locks[i].access != Shared then (s, InUse)
      else (Insert(s, s.locks[i].key, Shared), Done)
    case FindReadWrite(key, regular, exclusive) => FindReadWriteStep(s, key, regular, exclusive)
    case FindOutput(found, oldKey, regular, key) => FindOutputStep(s, found, oldKey, regular, key)
    case CreateDir(key) => (Insert(s, key, Exclusive), Done)
    case FhFromLock(lock, regular) =>
      var i := Find(s.locks, lock);
      if i == |s.locks| then (s, InvalidLock)
      else if !regular then (s, WrongType)
      else (AddHandle(s, lock), Done)
    case ChangeMode(objType, handle, mode) => ChangeModeStep(s, objType, handle, mode)
    case End(handle) => EndStep(s, handle)
    case Free(lock) =>
      var i := Find(s.locks, lock);
      if i == |s.locks| then (s, InvalidLock) else (s.(locks := Without(s.locks, i)), Done)
  }

  // ---- Exclusion --------------------------------------------------------------------

  // A lock stored as exclusive is the only one for its file.
  ghost predicate Exclusion(s: State) {
    forall i, j | 0 <= i < |s.locks| && 0 <= j < |s.locks| && s.locks[i].access == Exclusive && s.locks[j].key == s.locks[i].key ::
      i == j
  }

  // The root is never locked exclusively, nor opened; addresses and numbers of
  // handles are distinct.
  ghost predicate Orderly(s: State) {
    && (forall i :: 0 <= i < |s.locks| ==> s.locks[i].id < s.nextId && (s.locks[i].key == s.rootKey ==> s.locks[i].access != Exclusive))
    && (forall i, j :: 0 <= i < j < |s.locks| ==> s.locks[i].id != s.locks[j].id)
    && (forall h :: 0 <= h < |s.handles| ==> s.handles[h].lock < s.nextId && s.handles[h].id < s.nextId)
    && (forall g, h :: 0 <= g < h < |s.handles| ==> s.handles[g].id != s.handles[h].id)
    && (forall h, i :: 0 <= h < |s.handles| && 0 <= i < |s.locks| && s.locks[i].id == s.handles[h].lock ==> s.locks[i].key != s.rootKey)
  }

  // What the server is trusted for: a name that is locked exclusively does not
  // lead back to the id of the root, the root is not a regular file, and a new
  // object has an id of its own.
  predicate Honest(s: State, e: Event) {
    match e
    case Locate(key, _, mode) => mode == ExclusiveLock ==> key != s.rootKey
    case FindReadWrite(key, regular, _) => regular ==> key != s.rootKey
    case FindOutput(_, _, _, key) => key != s.rootKey && !Locked(s, key)
    case CreateDir(key) => key != s.rootKey && !Locked(s, key)
    case FhFromLock(lock, regular) =>
      regular && Find(s.locks, lock) < |s.locks| ==> s.locks[Find(s.locks, lock)].key != s.rootKey
    case _ => true
  }

  // Adding a lock keeps the exclusion exactly if the file is unlocked, or the new
  // lock and all locks of the file are not exclusive.
  lemma InsertExactly(s: State, key: int, access: Access)
    requires Exclusion(s)
    ensures Exclusion(Insert(s, key, access)) <==>
      !Locked(s, key) || (access != Exclusive && s.locks[FirstOf(s.locks, key)].access != Exclusive)
  {
    var t := Insert(s, key, access);
    var f := FirstOf(s.locks, key);
    assert forall i :: 0 < i < |t.locks| ==> t.locks[i] == s.locks[i - 1];
    if f < |s.locks| {
      assert t.locks[0].key == t.locks[f + 1].key && t.locks[f + 1] == s.locks[f];
    }
  }

  lemma InsertOrderly(s: State, key: int, access: Access)
    requires Orderly(s) && (key == s.rootKey ==> access != Exclusive)
    ensures Orderly(Insert(s, key, access))
    ensures key != s.rootKey ==> Orderly(AddHandle(Insert(s, key, access), s.nextId))
  {
    var t := Insert(s, key, access);
    assert forall i :: 0 < i < |t.locks| ==> t.locks[i] == s.locks[i - 1];
    assert Orderly(t);
    if key != s.rootKey {
      HandleKept(t, s.nextId);
    }
  }

  lemma HandleKept(s: State, lock: nat)
    requires Orderly(s) && lock < s.nextId
    requires forall i :: 0 <= i < |s.locks| && s.locks[i].id == lock ==> s.locks[i].key != s.rootKey
    ensures Orderly(AddHandle(s, lock))
  {
  }

  // A file with an exclusive lock has that lock first, so looking at the first
  // lock of a file is enough.
  lemma FirstTells(s: State, key: int, i: nat)
    requires Exclusion(s) && i < |s.locks| && s.locks[i].key == key
    ensures s.locks[i].access == Exclusive ==> FirstOf(s.locks, key) == i
    ensures s.locks[i].access != Exclusive ==> s.locks[FirstOf(s.locks, key)].access != Exclusive
  {
  }

  lemma {:induction false} NumPositive(locks: seq<Lock>, i: nat)
    requires i < |locks|
    ensures NumOf(locks, locks[i].key) >= 1
  {
    if i > 0 {
      NumPositive(locks[1..], i - 1);
    }
  }

  lemma {:induction false} OnlyOne(locks: seq<Lock>, i: nat, j: nat)
    requires i < j < |locks| && locks[i].key == locks[j].key
    ensures NumOf(locks, locks[i].key) > 1
  {
    if i == 0 {
      NumPositive(locks[1..], j - 1);
    } else {
      OnlyOne(locks[1..], i - 1, j - 1);
    }
  }

  lemma ChangeKeeps(s: State, objType: int, handle: nat, mode: Mode)
    requires Exclusion(s) && Orderly(s)
    ensures Exclusion(ChangeModeStep(s, objType, handle, mode).0) && Orderly(ChangeModeStep(s, objType, handle, mode).0)
  {
    var t := ChangeModeStep(s, objType, handle, mode).0;
    if t != s {
      var h := FindHandle(s.handles, handle);
      var i := Find(s.locks, s.handles[h].lock);
      forall j | 0 <= j < |s.locks| && j != i ensures s.locks[j].key != s.locks[i].key {
        if s.locks[j].key == s.locks[i].key {
          OnlyOne(s.locks, if i < j then i else j, if i < j then j else i);
        }
      }
    }
  }

  lemma RemoveKeeps(s: State, t: State, i: nat)
    requires Exclusion(s) && Orderly(s) && i < |s.locks| && t == s.(locks := Without(s.locks, i))
    ensures Exclusion(t) && Orderly(t)
  {
  }

  lemma EndKeeps(s: State, handle: nat)
    requires Exclusion(s) && Orderly(s)
    ensures Exclusion(EndStep(s, handle).0) && Orderly(EndStep(s, handle).0)
  {
    var h := FindHandle(s.handles, handle);
    if h < |s.handles| {
      var u := s.(handles := Without(s.handles, h));
      assert Exclusion(u) && Orderly(u) by {
        assert forall j :: 0 <= j < |u.handles| ==> u.handles[j] == s.handles[if j < h then j else j + 1];
      }
      var i := Find(s.locks, s.handles[h].lock);
      if i < |s.locks| {
        RemoveKeeps(u, u.(locks := Without(u.locks, i)), i);
      }
    }
  }

  lemma FindReadWriteKeeps(s: State, key: int, regular: bool, exclusive: bool)
    requires Exclusion(s) && Orderly(s) && (regular ==> key != s.rootKey)
    ensures var t := FindReadWriteStep(s, key, regular, exclusive).0; Exclusion(t) && Orderly(t)
  {
    hide Exclusion, Orderly, FirstOf;
    if FindReadWriteStep(s, key, regular, exclusive).1 == Done {
      var access := if exclusive then Exclusive else Shared;
      InsertExactly(s, key, access);
      InsertOrderly(s, key, access);
      HandlesAside(Insert(s, key, access), s.nextId);
    }
  }

  // Every step keeps the exclusion, with a server that can be trusted.
  lemma StepKeeps(s: State, e: Event)
    requires Exclusion(s) && Orderly(s) && Honest(s, e)
    ensures Exclusion(Step(s, e).0) && Orderly(Step(s, e).0)
  {
    hide Exclusion, Orderly, FirstOf, Find, FindReadWriteStep, ChangeModeStep, EndStep;
    match e {
      case LocateRoot(mode) =>
        RootShared(s);
        InsertExactly(s, s.rootKey, Shared);
        InsertOrderly(s, s.rootKey, Shared);
      case Locate(key, link, mode) =>
        if mode != OtherMode {
          var access := if mode == SharedLock then Shared else Exclusive;
          InsertExactly(s, key, access);
          InsertOrderly(s, key, access);
        }
      case Copy(lock) =>
        var i := Find(s.locks, lock);
        if i < |s.locks| {
          FirstTells(s, s.locks[i].key, i);
          InsertExactly(s, s.locks[i].key, Shared);
          InsertOrderly(s, s.locks[i].key, Shared);
        }
      case FindReadWrite(key, regular, exclusive) => FindReadWriteKeeps(s, key, regular, exclusive);
      case FindOutput(_, _, _, key) =>
        InsertExactly(s, key, NewFile);
        InsertOrderly(s, key, NewFile);
        HandlesAside(Insert(s, key, NewFile), s.nextId);
      case CreateDir(key) =>
        InsertExactly(s, key, Exclusive);
        InsertOrderly(s, key, Exclusive);
      case FhFromLock(lock, regular) => HandleOrderly(s, lock, regular);
      case ChangeMode(objType, handle, mode) => ChangeKeeps(s, objType, handle, mode);
      case End(handle) => EndKeeps(s, handle);
      case Free(lock) =>
        var i := Find(s.locks, lock);
        if i < |s.locks| {
          RemoveKeeps(s, s.(locks := Without(s.locks, i)), i);
        }
    }
  }

  lemma RootShared(s: State)
    requires Orderly(s)
    ensures Locked(s, s.rootKey) ==> s.locks[FirstOf(s.locks, s.rootKey)].access != Exclusive
  {
  }

  lemma HandlesAside(s: State, lock: nat)
    requires Exclusion(s)
    ensures Exclusion(AddHandle(s, lock))
  {
  }

  lemma HandleOrderly(s: State, lock: nat, regular: bool)
    requires Exclusion(s) && Orderly(s) && Honest(s, FhFromLock(lock, regular))
    ensures var t := Step(s, FhFromLock(lock, regular)).0; Exclusion(t) && Orderly(t)
  {
  }

  // ---- Whole runs --------------------------------------------------------------------

  function Run(s: State, es: seq<Event>): State
    decreases |es|
  {
    if es == [] then s else Run(Step(s, es[0]).0, es[1..])
  }

  ghost predicate AllHonest(s: State, es: seq<Event>)
    decreases |es|
  {
    es == [] || (Honest(s, es[0]) && AllHonest(Step(s, es[0]).0, es[1..]))
  }

  // Over any run an exclusive lock stays the only lock for its file.
  lemma {:induction false} RunExcludes(s: State, es: seq<Event>)
    requires Exclusion(s) && Orderly(s) && AllHonest(s, es)
    ensures Exclusion(Run(s, es)) && Orderly(Run(s, es))
    decreases |es|
  {
    hide Step, Exclusion, Orderly, Honest;
    if es != [] {
      StepKeeps(s, es[0]);
      RunExcludes(Step(s, es[0]).0, es[1..]);
    }
  }

  // That is, in every state that a freshly mounted volume can get into.
  lemma ReachableExcludes(rootKey: int, es: seq<Event>)
    requires AllHonest(State([], [], 0, rootKey), es)
    ensures Exclusion(Run(State([], [], 0, rootKey), es))
  {
    RunExcludes(State([], [], 0, rootKey), es);
  }

  // Who asks for a file that is locked exclusively is refused.
  lemma ExclusiveRefuses(s: State, i: nat, e: Event)
    requires Exclusion(s) && i < |s.locks| && s.locks[i].access == Exclusive
    requires match e
      case Locate(key, _, mode) => key == s.locks[i].key && mode != OtherMode
      case FindReadWrite(key, regular, _) => key == s.locks[i].key && regular
      case FindOutput(found, oldKey, regular, _) => found && oldKey == s.locks[i].key && regular
      case Copy(lock) => Find(s.locks, lock) == i
      case _ => false
    ensures Step(s, e) == (s, InUse)
  {
  }

  // ---- What a request gets, and what is given up ---------------------------------------

  // Requests that lock a file, and those of them that open it
  predicate Acquires(e: Event) {
    e.LocateRoot? || e.Locate? || e.Copy? || e.CreateDir? || Opens(e)
  }

  predicate Opens(e: Event) {
    e.FindReadWrite? || e.FindOutput?
  }

  // The file that a request is about
  ghost predicate IsFor(s: State, e: Event, key: int) {
    match e
    case LocateRoot(_) => key == s.rootKey
    case Locate(k, _, _) => key == k
    case Copy(lock) => exists i :: 0 <= i < |s.locks| && s.locks[i].id == lock && s.locks[i].key == key
    case FindReadWrite(k, _, _) => key == k
    case FindOutput(_, _, _, k) => key == k
    case CreateDir(k) => key == k
    case _ => false
  }

  predicate AsksExclusive(e: Event) {
    match e
    case LocateRoot(mode) => mode == ExclusiveLock
    case Locate(_, _, mode) => mode == ExclusiveLock
    case FindReadWrite(_, _, exclusive) => exclusive
    case CreateDir(_) => true
    case _ => false
  }

  // Whoever is not served changes nothing.
  lemma RefusedChangesNothing(s: State, e: Event)
    ensures Step(s, e).1 != Done ==> Step(s, e).0 == s
  {
  }

  // Whoever is served has one new lock, first in the list, for the file asked
  // for and with the access asked for; all others stay as they were.
  lemma ServedAsAsked(s: State, e: Event)
    requires Acquires(e) && Step(s, e).1 == Done
    ensures var t := Step(s, e).0;
      && |t.locks| == |s.locks| + 1 && t.locks[1..] == s.locks
      && t.locks[0].id == s.nextId && IsFor(s, e, t.locks[0].key)
      && (t.locks[0].access == Exclusive <==> AsksExclusive(e)) && (t.locks[0].access == NewFile <==> e.FindOutput?)
      && t.handles == (if Opens(e) then [Handle(s.nextId + 1, s.nextId)] else []) + s.handles
      && t.nextId == s.nextId + (if Opens(e) then 2 else 1) && t.rootKey == s.rootKey
  {
  }

  // What is refused whatever the locks are: unknown modes, soft links, objects
  // that are not regular files, and the root for oneself
  lemma NeverServed(s: State, key: int, link: bool, mode: Mode, exclusive: bool, oldKey: int, lock: nat)
    ensures Step(s, Locate(key, link, OtherMode)).1 == BadMode && Step(s, LocateRoot(OtherMode)).1 == BadMode
    ensures Step(s, LocateRoot(ExclusiveLock)).1 == InUse && Step(s, LocateRoot(SharedLock)).1 == Done
    ensures !Locked(s, key) && mode != OtherMode ==> Step(s, Locate(key, true, mode)).1 == SoftLink
    ensures Step(s, FindReadWrite(key, false, exclusive)).1 == WrongType
    ensures Step(s, FindOutput(true, oldKey, false, key)).1 == WrongType
    ensures (exists i :: 0 <= i < |s.locks| && s.locks[i].id == lock) ==> Step(s, FhFromLock(lock, false)).1 == WrongType
  {
    hide FirstOf, Find;
  }

  // What a file without a lock, and one that is only read, is locked for
  lemma UnlockedIsServed(s: State, key: int, mode: Mode, exclusive: bool, found: bool, newKey: int)
    requires !Locked(s, key) && mode != OtherMode
    ensures Step(s, Locate(key, false, mode)).1 == Done
    ensures Step(s, FindReadWrite(key, true, exclusive)).1 == Done
    ensures Step(s, FindOutput(found, key, true, newKey)).1 == Done
  {
  }

  lemma SharedIsJoined(s: State, key: int, link: bool)
    requires Locked(s, key) && forall i :: 0 <= i < |s.locks| && s.locks[i].key == key ==> s.locks[i].access == Shared
    ensures Step(s, Locate(key, link, SharedLock)).1 == Done && Step(s, Locate(key, link, ExclusiveLock)).1 == InUse
    ensures Step(s, FindReadWrite(key, true, false)).1 == Done && Step(s, FindReadWrite(key, true, true)).1 == InUse
    ensures forall newKey :: Step(s, FindOutput(true, key, true, newKey)).1 == InUse
  {
  }

  ghost function OtherLocks(locks: seq<Lock>, id: nat): seq<Lock> {
    if locks == [] then [] else (if locks[0].id == id then [] else [locks[0]]) + OtherLocks(locks[1..], id)
  }

  ghost function OtherHandles(handles: seq<Handle>, id: nat): seq<Handle> {
    if handles == [] then [] else (if handles[0].id == id then [] else [handles[0]]) + OtherHandles(handles[1..], id)
  }

  lemma {:induction false} OtherLocksAre(locks: seq<Lock>, id: nat)
    requires forall i, j :: 0 <= i < j < |locks| ==> locks[i].id != locks[j].id
    ensures var i := Find(locks, id);
      OtherLocks(locks, id) == if i == |locks| then locks else Without(locks, i)
  {
    hide Without;
    if locks != [] {
      var rest := locks[1..];
      OtherLocksAre(rest, id);
      if locks[0].id == id {
        assert forall j :: 0 <= j < |rest| ==> rest[j] == locks[j + 1];
        assert Without(locks, 0) == rest;
      } else {
        var i := Find(rest, id);
        assert locks == [locks[0]] + rest;
        if i < |rest| { assert Without(locks, i + 1) == [locks[0]] + Without(rest, i); }
      }
    }
  }

  lemma {:induction false} OtherHandlesAre(handles: seq<Handle>, id: nat)
    requires forall i, j :: 0 <= i < j < |handles| ==> handles[i].id != handles[j].id
    ensures var i := FindHandle(handles, id);
      OtherHandles(handles, id) == if i == |handles| then handles else Without(handles, i)
  {
    if handles != [] {
      OtherHandlesAre(handles[1..], id);
      assert handles == [handles[0]] + handles[1..];
      if handles[0].id == id { assert FindHandle(handles[1..], id) == |handles[1..]|; }
    }
  }

  // Closing a handle gives up its lock and the handle, and nothing else.
  lemma EndGivesUp(s: State, h: nat)
    requires Orderly(s) && h < |s.handles|
    ensures Step(s, End(s.handles[h].id))
      == (s.(locks := OtherLocks(s.locks, s.handles[h].lock), handles := OtherHandles(s.handles, s.handles[h].id)), Done)
  {
    hide Find, FindHandle, Without, OtherLocks, OtherHandles;
    OtherLocksAre(s.locks, s.handles[h].lock);
    OtherHandlesAre(s.handles, s.handles[h].id);
    assert FindHandle(s.handles, s.handles[h].id) == h;
  }

  // Freeing a lock gives up that lock, and nothing else.
  lemma FreeGivesUp(s: State, i: nat)
    requires Orderly(s) && i < |s.locks|
    ensures Step(s, Free(s.locks[i].id)) == (s.(locks := OtherLocks(s.locks, s.locks[i].id)), Done)
  {
    hide Find, Without, OtherLocks;
    OtherLocksAre(s.locks, s.locks[i].id);
  }

  // An unknown handle or lock is reported.
  lemma UnknownIsReported(s: State, id: nat)
    ensures Step(s, End(id)).1 == NotFound <==> forall h :: 0 <= h < |s.handles| ==> s.handles[h].id != id
    ensures Step(s, Free(id)).1 == InvalidLock <==> forall i :: 0 <= i < |s.locks| ==> s.locks[i].id != id
    ensures Step(s, ChangeMode(CHANGE_FH, id, SharedLock)).1 == NotFound <==> forall h :: 0 <= h < |s.handles| ==> s.handles[h].id != id
    ensures Step(s, Copy(id)).1 == InvalidLock <==> forall i :: 0 <= i < |s.locks| ==> s.locks[i].id != id
  {
    hide Find, FindHandle, Without;
  }

  // So giving up what was just got leads back to where it began.
  lemma GivingUpUndoes(s: State, e: Event)
    requires Orderly(s) && Acquires(e) && Step(s, e).1 == Done
    ensures var t := Step(s, e).0;
      && (Opens(e) ==> Step(t, End(s.nextId + 1)) == (s.(nextId := s.nextId + 2), Done))
      && (!Opens(e) ==> Step(t, Free(s.nextId)) == (s.(nextId := s.nextId + 1), Done))
  {
    hide Step, Orderly;
    ServedAsAsked(s, e);
    assert [] + s.handles == s.handles;
    FirstGoes(Step(s, e).0, s.locks, s.handles);
  }

  lemma FirstGoes(t: State, locks: seq<Lock>, handles: seq<Handle>)
    requires t.locks != [] && t.locks[1..] == locks
    ensures Step(t, Free(t.locks[0].id)) == (t.(locks := locks), Done)
    ensures t.handles != [] && t.handles[0].lock == t.locks[0].id && t.handles[1..] == handles ==>
      Step(t, End(t.handles[0].id)) == (t.(locks := locks, handles := handles), Done)
  {
    assert Without(t.locks, 0) == locks;
    if t.handles != [] { assert Without(t.handles, 0) == t.handles[1..]; }
  }

  // A handle made from a lock takes the lock with it when it is closed.
  lemma HandleTakesLock(s: State, lock: nat)
    requires Orderly(s) && Step(s, FhFromLock(lock, true)).1 == Done
    ensures Step(Step(s, FhFromLock(lock, true)).0, End(s.nextId))
      == (s.(locks := OtherLocks(s.locks, lock), nextId := s.nextId + 1), Done)
  {
    hide Find, FindHandle, OtherLocks;
    var t := Step(s, FhFromLock(lock, true)).0;
    OtherLocksAre(s.locks, lock);
    assert t.handles[0].id == s.nextId;
    assert Without(t.handles, 0) == s.handles;
  }

  // The mode of a handle changes exactly if its lock is still there and is the
  // only one for its file, or has the access already; then it is as asked for,
  // and all other locks and all handles stay as they were.
  lemma ChangeExactly(s: State, h: nat, i: nat, mode: Mode)
    requires Orderly(s) && h < |s.handles| && i < |s.locks| && s.locks[i].id == s.handles[h].lock && mode != OtherMode
    ensures var (t, r) := Step(s, ChangeMode(CHANGE_FH, s.handles[h].id, mode));
      var access := if mode == SharedLock then Shared else Exclusive;
      && (r == Done <==> s.locks[i].access == access || forall j :: 0 <= j < |s.locks| && j != i ==> s.locks[j].key != s.locks[i].key)
      && (r == Done ==> t == s.(locks := s.locks[..i] + [Lock(s.locks[i].id, s.locks[i].key, access)] + s.locks[i + 1..]))
      && (r != Done ==> r == InUse && t == s)
  {
    hide NumOf;
    assert FindHandle(s.handles, s.handles[h].id) == h && Find(s.locks, s.handles[h].lock) == i;
    OnlyLock(s.locks, i);
    var access := if mode == SharedLock then Shared else Exclusive;
    Replaced(s.locks, i, Lock(s.locks[i].id, s.locks[i].key, access));
  }

  lemma OnlyLock(locks: seq<Lock>, i: nat)
    requires i < |locks|
    ensures NumOf(locks, locks[i].key) > 1 <==> !forall j :: 0 <= j < |locks| && j != i ==> locks[j].key != locks[i].key
  {
    if j :| 0 <= j < |locks| && j != i && locks[j].key == locks[i].key {
      OnlyOne(locks, if i < j then i else j, if i < j then j else i);
    } else {
      SingleCount(locks, i);
    }
  }

  lemma Replaced(locks: seq<Lock>, i: nat, l: Lock)
    requires i < |locks|
    ensures locks[i := l] == locks[..i] + [l] + locks[i + 1..]
    ensures l == locks[i] ==> locks == locks[i := l]
  {
  }

  lemma {:induction false} NoneCount(locks: seq<Lock>, key: int)
    requires forall j :: 0 <= j < |locks| ==> locks[j].key != key
    ensures NumOf(locks, key) == 0
  {
    if locks != [] {
      NoneCount(locks[1..], key);
    }
  }

  lemma {:induction false} SingleCount(locks: seq<Lock>, i: nat)
    requires i < |locks| && forall j :: 0 <= j < |locks| && j != i ==> locks[j].key != locks[i].key
    ensures NumOf(locks, locks[i].key) == 1
  {
    if i == 0 {
      NoneCount(locks[1..], locks[0].key);
    } else {
      SingleCount(locks[1..], i - 1);
    }
  }

  // ---- What is not excluded, and what is trusted ------------------------------------------

  // Although documented as exclusive (src/find.c:405-410), a file opened with
  // act_FINDOUTPUT can be opened again for reading; nothing else gets a lock.
  lemma NewFileAdmits(s: State, key: int, e: Event)
    requires FirstOf(s.locks, key) < |s.locks| && s.locks[FirstOf(s.locks, key)].access == NewFile
    requires match e
      case Locate(k, _, mode) => k == key && mode != OtherMode
      case FindReadWrite(k, regular, _) => k == key && regular
      case FindOutput(found, oldKey, regular, _) => found && oldKey == key && regular
      case _ => false
    ensures Step(s, e).1 == Done <==> e.FindReadWrite? && !e.exclusive
    ensures Step(s, e).1 != Done ==> Step(s, e) == (s, InUse)
  {
  }

  // The test at src/object.c:251 refuses every request for a lock, and lets
  // every request for anything else pass without an effect.
  lemma ChangeLockRefused(s: State, objType: int, handle: nat, mode: Mode)
    requires mode != OtherMode
    ensures ChangeModeStep(s, objType, handle, mode) == (s, WrongType) <==> objType == CHANGE_LOCK
    ensures objType != CHANGE_LOCK && objType != CHANGE_FH ==> ChangeModeStep(s, objType, handle, mode) == (s, Nothing)
  {
  }

  // Looking at the first lock only is not enough in a state without exclusion.
  lemma FirstMatchNotEnough(a: nat, b: nat, key: int, rootKey: int)
    requires a != b
    ensures var s := State([Lock(a, key, Shared), Lock(b, key, Exclusive)], [], a + b + 1, rootKey);
      !Exclusion(s) && Step(s, FindReadWrite(key, true, false)).1 == Done
  {
    var s := State([Lock(a, key, Shared), Lock(b, key, Exclusive)], [], a + b + 1, rootKey);
    assert s.locks[1].access == Exclusive && s.locks[0].key == s.locks[1].key;
    assert FirstOf(s.locks, key) == 0;
  }

  // A name that leads back to the id of the root defeats the exclusion: the root
  // itself is locked without looking at the list.
  lemma RootNeedsTrust(s: State)
    requires Exclusion(s) && !Locked(s, s.rootKey)
    ensures !Exclusion(Run(s, [Locate(s.rootKey, false, ExclusiveLock), LocateRoot(SharedLock)]))
  {
    var es := [Locate(s.rootKey, false, ExclusiveLock), LocateRoot(SharedLock)];
    var t := Step(s, es[0]).0;
    InsertExactly(s, s.rootKey, Exclusive);
    assert t.locks[0] == Lock(s.nextId, s.rootKey, Exclusive);
    InsertExactly(t, s.rootKey, Shared);
    assert es[1..] == [es[1]] && [es[1]][1..] == [];
    assert Run(t, es[1..]) == Step(t, es[1]).0;
  }

  // So does a new directory with an id that is in use.
  lemma NewIdNeedsTrust(s: State, key: int)
    requires Exclusion(s)
    ensures Exclusion(Step(s, CreateDir(key)).0) <==> !Locked(s, key)
  {
    InsertExactly(s, key, Exclusive);
  }
}
