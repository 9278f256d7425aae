// The packet handlers that walk and relink the lock list of a volume, proved
// against the steps of Locks.
module LockList {
  import opened Locks

  // struct FileLock, the part at the head of an ELOCK; its id stands for its address
  class Node {
    const id: nat
    const key: int         // fl_Key
    var access: Access     // fl_Access
    var next: Node?        // fl_Link

    constructor (id: nat, key: int, access: Access, next: Node?)
      ensures this.id == id && this.key == key && this.access == access && this.next == next
    {
      this.id, this.key, this.access, this.next := id, key, access, next;
    }

    ghost function Value(): Lock
      reads this
    {
      Lock(id, key, access)
    }
  }

  ghost function Values(nodes: seq<Node>): (r: seq<Lock>)
    reads nodes
    ensures |r| == |nodes| && forall k :: 0 <= k < |nodes| ==> r[k] == nodes[k].Value()
  {
    if nodes == [] then [] else [nodes[0].Value()] + Values(nodes[1..])
  }

  // Number i of the nodes, or the null at the end
  ghost function At(nodes: seq<Node>, i: nat): Node? {
    if i < |nodes| then nodes[i] else null
  }

  // The nodes in the order of their links, none twice
  ghost predicate Chain(head: Node?, nodes: seq<Node>)
    reads nodes
  {
    && head == At(nodes, 0)
    && (forall k :: 0 <= k < |nodes| ==> nodes[k].next == At(nodes, k + 1))
    && (forall j, k :: 0 <= j < k < |nodes| ==> nodes[j] != nodes[k])
  }

  // The nodes without number i, once the link that led there is bent past it
  lemma BentChain(head: Node?, nodes: seq<Node>, i: nat)
    requires i < |nodes| && head == At(nodes, if i == 0 then 1 else 0)
    requires forall k :: 0 <= k < |nodes| ==> nodes[k].next == At(nodes, if k + 1 == i then k + 2 else k + 1)
    requires forall j, k :: 0 <= j < k < |nodes| ==> nodes[j] != nodes[k]
    ensures Chain(head, Without(nodes, i)) && Values(Without(nodes, i)) == Without(Values(nodes), i)
  {
    hide Values, Without;
    var rest := Without(nodes, i);
    ValuesWithout(nodes, i);
    forall k | 0 <= k < |rest| ensures rest[k].next == At(rest, k + 1) {
      BentLink(nodes, i, k);
    }
  }

  lemma BentLink(nodes: seq<Node>, i: nat, k: nat)
    requires i < |nodes| && k + 1 < |nodes|
    requires var n := if k < i then k else k + 1;
      nodes[n].next == At(nodes, if n + 1 == i then n + 2 else n + 1)
    ensures Without(nodes, i)[k].next == At(Without(nodes, i), k + 1)
  {
  }

  lemma ValuesWithout(nodes: seq<Node>, i: nat)
    requires i < |nodes|
    ensures Values(Without(nodes, i)) == Without(Values(nodes), i)
  {
  }

  class Volume {
    var head: Node?          // g_Dev->dl_LockList
    var handles: seq<Handle> // g_FH
    var nextId: nat
    const rootKey: int
    ghost var nodes: seq<Node>

    ghost predicate Valid()
      reads this, nodes
    {
      Chain(head, nodes)
    }

    ghost function View(): State
      reads this, nodes
    {
      State(Values(nodes), handles, nextId, rootKey)
    }

    constructor (rootKey: int)
      ensures Valid() && View() == State([], [], 0, rootKey) && Exclusion(View()) && Orderly(View())
    {
      head, nodes, handles, nextId, this.rootKey := null, [], [], 0, rootKey;
    }

    // lock_Lookup
    method Lookup(id: nat) returns (n: Node?, ghost i: nat)
      requires Valid()
      ensures i == Find(View().locks, id) && n == At(nodes, i)
    {
      n, i := head, 0;
      while n != null && n.id != id
        invariant i <= |nodes| && n == At(nodes, i) && forall j :: 0 <= j < i ==> nodes[j].id != id
        decreases |nodes| - i
      {
        n, i := n.next, i + 1;
      }
    }

    // lock_LookupFromKey
    method LookupFromKey(key: int) returns (n: Node?, ghost i: nat)
      requires Valid()
      ensures i == FirstOf(View().locks, key) && n == At(nodes, i)
    {
      n, i := head, 0;
      while n != null && n.key != key
        invariant i <= |nodes| && n == At(nodes, i) && forall j :: 0 <= j < i ==> nodes[j].key != key
        decreases |nodes| - i
      {
        n, i := n.next, i + 1;
      }
    }

    // lock_NumLocksFromKey
    method NumLocksFromKey(key: int) returns (num: nat)
      requires Valid()
      ensures num == NumOf(View().locks, key)
    {
      num := 0;
      var n := head;
      ghost var i, locks := 0, View().locks;
      while n != null
        invariant i <= |nodes| && n == At(nodes, i) && locks == View().locks
        invariant num + NumOf(locks[i..], key) == NumOf(locks, key)
        decreases |nodes| - i
      {
        if n.key == key {
          num := num + 1;
        }
        assert locks[i..][1..] == locks[i + 1..];
        n, i := n.next, i + 1;
      }
    }

    // fh_Lookup
    method LookupHandle(id: nat) returns (h: nat)
      ensures h == FindHandle(handles, id)
    {
      h := 0;
      while h < |handles| && handles[h].id != id
        invariant h <= |handles| && forall j :: 0 <= j < h ==> handles[j].id != id
      {
        h := h + 1;
      }
    }

    // lock_Create and lock_Insert: at the head of the list
    method Insert(key: int, access: Access) returns (id: nat)
      requires Valid()
      modifies `head, `nodes, `nextId
      ensures Valid() && View() == Locks.Insert(old(View()), key, access) && id == old(nextId)
    {
      hide Values;
      id := nextId;
      var n := new Node(id, key, access, head);
      nextId := nextId + 1;
      Link(n);
    }

    method Link(n: Node)
      requires Valid() && n !in nodes && n.next == head
      modifies `head, `nodes
      ensures Valid() && View() == old(View()).(locks := [n.Value()] + old(View().locks))
    {
      hide Values;
      head, nodes := n, [n] + nodes;
    }

    // fh_Create and fh_Insert
    method InsertHandle(lock: nat)
      requires Valid()
      modifies `handles, `nextId
      ensures Valid() && View() == AddHandle(old(View()), lock)
    {
      handles, nextId := [Handle(nextId, lock)] + handles, nextId + 1;
    }

    // lock_Remove: the link that leads to the lock is bent past it.
    method Remove(id: nat)
      requires Valid()
      modifies this`head, this`nodes, nodes
      ensures Valid() && handles == old(handles) && nextId == old(nextId)
      ensures var i := Find(old(View().locks), id);
        View().locks == if i < |old(View().locks)| then Without(old(View().locks), i) else old(View().locks)
    {
      ghost var i := 0;
      var pal: Node?, al := null, head;
      while al != null && al.id != id
        invariant i <= |nodes| && al == At(nodes, i) && pal == (if i == 0 then null else nodes[i - 1])
        invariant forall j :: 0 <= j < i ==> nodes[j].id != id
        decreases |nodes| - i
      {
        pal, al, i := al, al.next, i + 1;
      }
      if al != null {
        Unlink(pal, al, i);
      }
    }

    method Unlink(pal: Node?, al: Node, ghost i: nat)
      requires Valid() && i < |nodes| && al == nodes[i] && pal == (if i == 0 then null else nodes[i - 1])
      modifies this`head, this`nodes, pal
      ensures Valid() && handles == old(handles) && nextId == old(nextId)
      ensures View().locks == Without(old(View().locks), i)
    {
      hide Values, Without, Chain;
      BendLink(pal, al, i);
      BentChain(head, nodes, i);
      nodes := Without(nodes, i);
    }

    // *pal = al->fl_Link, for number i of the list
    method BendLink(pal: Node?, al: Node, ghost i: nat)
      requires Valid() && i < |nodes| && al == nodes[i] && pal == (if i == 0 then null else nodes[i - 1])
      modifies this`head, pal
      ensures head == At(nodes, if i == 0 then 1 else 0)
      ensures forall k :: 0 <= k < |nodes| ==> nodes[k].next == At(nodes, if k + 1 == i then k + 2 else k + 1)
      ensures forall j, k :: 0 <= j < k < |nodes| ==> nodes[j] != nodes[k]
      ensures Values(nodes) == old(Values(nodes))
    {
      hide Values;
      if pal == null {
        head := al.next;
      } else {
        pal.next := al.next;
      }
    }

    // RootLocateAndLock below the root, from the lookup of the name on, with DupELock
    method LocateAndLock(key: int, link: bool, mode: Mode) returns (r: Result)
      requires Valid()
      modifies `head, `nodes, `nextId
      ensures Valid() && (View(), r) == Step(old(View()), Locate(key, link, mode))
    {
      hide Volume.Valid, Values, Find, FirstOf, NumOf, FindHandle, Without;
      if !(mode == SharedLock || mode == ExclusiveLock) {
        return BadMode;
      }
      var n, _ := LookupFromKey(key);
      if n != null {
        if n.access != Shared {
          return InUse;
        }
        if mode != SharedLock {
          return InUse;
        }
        var _ := Insert(key, Shared);
        return Done;
      }
      if link {
        return SoftLink;
      }
      var _ := Insert(key, if mode == SharedLock then Shared else Exclusive);
      return Done;
    }

    // RootLocateAndLock for the root
    method LocateRootLock(mode: Mode) returns (r: Result)
      requires Valid()
      modifies `head, `nodes, `nextId
      ensures Valid() && (View(), r) == Step(old(View()), LocateRoot(mode))
    {
      if !(mode == SharedLock || mode == ExclusiveLock) {
        return BadMode;
      }
      if mode != SharedLock {
        return InUse;
      }
      var _ := Insert(rootKey, Shared);
      return Done;
    }

    // do_act_COPY_DIR
    method CopyDir(lock: nat) returns (r: Result)
      requires Valid()
      modifies `head, `nodes, `nextId
      ensures Valid() && (View(), r) == Step(old(View()), Copy(lock))
    {
      hide Volume.Valid, Values, Find, FirstOf, NumOf, FindHandle, Without;
      var n, _ := Lookup(lock);
      if n == null {
        return InvalidLock;
      }
      if n.access != Shared {
        return InUse;
      }
      var _ := Insert(n.key, n.access);
      return Done;
    }

    // act_FINDREADWRITE, from the answer of the server on
    method OpenReadWrite(key: int, regular: bool, exclusive: bool) returns (r: Result)
      requires Valid()
      modifies `head, `nodes, `handles, `nextId
      ensures Valid() && (View(), r) == Step(old(View()), FindReadWrite(key, regular, exclusive))
    {
      hide Volume.Valid, Values, Find, FirstOf, NumOf, FindHandle, Without;
      if !regular {
        return WrongType;
      }
      var n, _ := LookupFromKey(key);
      if n != null {
        if exclusive || n.access == Exclusive {
          return InUse;
        }
      }
      var id := Insert(key, if exclusive then Exclusive else Shared);
      InsertHandle(id);
      return Done;
    }

    // act_FINDOUTPUT: an old file is looked at, removed and created anew.
    method OpenOutput(found: bool, oldKey: int, regular: bool, key: int) returns (r: Result)
      requires Valid()
      modifies `head, `nodes, `handles, `nextId
      ensures Valid() && (View(), r) == Step(old(View()), FindOutput(found, oldKey, regular, key))
    {
      hide Volume.Valid, Values, Find, FirstOf, NumOf, FindHandle, Without;
      if found {
        if !regular {
          return WrongType;
        }
        var n, _ := LookupFromKey(oldKey);
        if n != null {
          return InUse;
        }
      }
      var id := Insert(key, NewFile);
      InsertHandle(id);
      return Done;
    }

    // act_FH_FROM_LOCK
    method OpenFromLock(lock: nat, regular: bool) returns (r: Result)
      requires Valid()
      modifies `handles, `nextId
      ensures Valid() && (View(), r) == Step(old(View()), FhFromLock(lock, regular))
    {
      hide Volume.Valid, Values, Find, FirstOf, NumOf, FindHandle, Without;
      var n, _ := Lookup(lock);
      if n == null {
        return InvalidLock;
      }
      if !regular {
        return WrongType;
      }
      InsertHandle(lock);
      return Done;
    }

    method SetAccess(n: Node, ghost i: nat, access: Access)
      requires Valid() && i < |nodes| && n == nodes[i]
      modifies n`access
      ensures Valid() && View() == old(View()).(locks := old(View().locks)[i := old(View().locks)[i].(access := access)])
    {
      hide Values;
      n.access := access;
    }

    // act_CHANGE_MODE
    method ChangeHandleMode(objType: int, handle: nat, mode: Mode) returns (r: Result)
      requires Valid()
      modifies nodes
      ensures Valid() && (View(), r) == Step(old(View()), ChangeMode(objType, handle, mode))
    {
      hide Volume.Valid, Values, Find, FirstOf, NumOf, FindHandle, Without;
      if !(objType == CHANGE_FH || objType != CHANGE_LOCK) || !(mode == SharedLock || mode == ExclusiveLock) {
        return WrongType;
      }
      if objType != CHANGE_FH {
        return Nothing;
      }
      var h := LookupHandle(handle);
      if h == |handles| {
        return NotFound;
      }
      var n, i := Lookup(handles[h].lock);
      if n == null {
        return Nothing;
      }
      var access := if mode == SharedLock then Shared else Exclusive;
      if n.access == access {
        return Done;
      }
      var num := NumLocksFromKey(n.key);
      if num > 1 {
        return InUse;
      }
      SetAccess(n, i, access);
      return Done;
    }

    // fh_Remove
    method RemoveHandle(h: nat)
      requires Valid() && h < |handles|
      modifies `handles
      ensures Valid() && View() == old(View()).(handles := Without(old(handles), h))
    {
      hide Values;
      handles := Without(handles, h);
    }

    // act_END, as far as locks and handles are concerned
    method Close(handle: nat) returns (r: Result)
      requires Valid()
      modifies this`head, this`nodes, this`handles, nodes
      ensures Valid() && (View(), r) == Step(old(View()), End(handle))
    {
      hide Volume.Valid, Values, Find, FirstOf, NumOf, FindHandle, Without;
      var h := LookupHandle(handle);
      if h == |handles| {
        return NotFound;
      }
      Remove(handles[h].lock);
      RemoveHandle(h);
      return Done;
    }

    // act_FREE_LOCK
    method FreeLock(lock: nat) returns (r: Result)
      requires Valid()
      modifies this`head, this`nodes, nodes
      ensures Valid() && (View(), r) == Step(old(View()), Free(lock))
    {
      hide Volume.Valid, Values, Find, FirstOf, NumOf, FindHandle, Without;
      var n, _ := Lookup(lock);
      if n == null {
        return InvalidLock;
      }
      Remove(lock);
      return Done;
    }
  }
}
