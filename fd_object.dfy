/** The fd object of libglusterfs/src/fd.c: its reference count, its place
    on the owning inode's fd_list, lookup over that list, and the teardown
    that notifies every translator holding a context on it.

    Pointers become keys: an `fd_t *` is an FdId into the store of fd
    objects, an `inode_t *` an InodeId, and NULL is None. The inode lock is
    not modelled; every operation is one atomic step. Calls into code that
    is not part of fd.c (inode_ref, inode_unref, the translators' release
    callbacks) are recorded, in order, in a trace of events. */
module FdObjects {

  datatype Option<T> = None | Some(value: T)

  /** An `fd_t *`. */
  type FdId = nat

  /** An `inode_t *`. */
  type InodeId = nat

  /** `pid_t`; 0 is the wildcard of fd_lookup. */
  type Pid = int

  /** Which of the two teardown callbacks a translator's `cbks` provides. */
  datatype Callbacks = Callbacks(release: bool, releasedir: bool)

  /** The part of an `inode_t` that fd.c touches: the directory bit of
      `st_mode`, the translators reachable by name from `inode->table->xl`,
      and `fd_list`, front first. */
  datatype Inode = Inode(isDir: bool, graph: map<string, Callbacks>, fdList: seq<FdId>)

  /** An `fd_t`. `ctx` lists the translator names keyed in `fd->ctx` in the
      order the teardown walk visits them; `ctxLocked` is the dictionary's
      `is_locked` flag; `alive` becomes false when fd_destroy frees it. */
  datatype Fd = Fd(refcount: nat, inode: InodeId, pid: Pid, ctx: seq<string>, ctxLocked: bool, alive: bool)

  /** A call leaving fd.c. */
  datatype Event =
    | InodeRef(ino: InodeId)
    | InodeUnref(ino: InodeId)
    | Release(xl: string, fd: FdId)
    | ReleaseDir(xl: string, fd: FdId)

  /** Everything the fd operations read or change; `nextId` is where the
      next allocation lands. */
  datatype World = World(fds: map<FdId, Fd>, inodes: map<InodeId, Inode>, trace: seq<Event>, nextId: nat)

  predicate NoDup(s: seq<FdId>)
  {
    forall i, j :: 0 <= i < j < |s| ==> s[i] != s[j]
  }

  predicate Alive(w: World, id: FdId)
  {
    id in w.fds && w.fds[id].alive
  }

  predicate OnInode(w: World, ino: InodeId, id: FdId)
  {
    Alive(w, id) && w.fds[id].inode == ino
  }

  /** The lifecycle invariant: a live fd holds a reference and a valid
      inode; every fd on an inode's fd_list is live and belongs to that
      inode (so its refcount is positive while it is listed); no fd is
      listed twice. */
  ghost predicate Inv(w: World)
  {
    && (forall id :: id in w.fds ==> id < w.nextId)
    && (forall id :: Alive(w, id) ==> w.fds[id].refcount > 0 && w.fds[id].inode in w.inodes)
    && (forall ino, id :: ino in w.inodes && id in w.inodes[ino].fdList ==> OnInode(w, ino, id))
    && (forall ino :: ino in w.inodes ==> NoDup(w.inodes[ino].fdList))
  }

  /** `s` without `x`: what list_del_init leaves of the list `x` is on. */
  function Remove(s: seq<FdId>, x: FdId): (r: seq<FdId>)
    ensures forall y :: y in r <==> y in s && y != x
    ensures NoDup(s) ==> NoDup(r)
    ensures x !in s ==> r == s
  {
    if s == [] then []
    else if s[0] == x then Remove(s[1..], x)
    else
      var rest := Remove(s[1..], x);
      assert NoDup(s) ==> s[0] !in rest && NoDup(s[1..]);
      [s[0]] + rest
  }

  /** list_del_init unlinks one node and leaves the others in their order:
      on a duplicate-free list, Remove cuts out the single occurrence. */
  lemma {:induction false} RemoveKeepsOrder(s: seq<FdId>, x: FdId)
    requires NoDup(s) && x in s
    ensures exists i :: 0 <= i < |s| && s[i] == x && Remove(s, x) == s[..i] + s[i + 1..]
  {
    NoDupTail(s);
    if s[0] == x {
      assert Remove(s, x) == s[..0] + s[0 + 1..];
    } else {
      assert x in s[1..];
      RemoveKeepsOrder(s[1..], x);
      var j :| 0 <= j < |s[1..]| && s[1..][j] == x && Remove(s[1..], x) == s[1..][..j] + s[1..][j + 1..];
      RemoveConsOrder(s, x, j);
    }
  }

  lemma RemoveConsOrder(s: seq<FdId>, x: FdId, j: nat)
    requires s != [] && s[0] != x && j < |s| - 1 && s[1..][j] == x
    requires Remove(s[1..], x) == s[1..][..j] + s[1..][j + 1..]
    ensures s[j + 1] == x && Remove(s, x) == s[..j + 1] + s[j + 1 + 1..]
  {
    assert Remove(s, x) == [s[0]] + Remove(s[1..], x);
    ConsSplit(s, j);
  }

  /** Cutting entry j out of the tail is cutting entry j + 1 out of the
      whole list. */
  lemma ConsSplit(s: seq<FdId>, j: nat)
    requires j < |s| - 1
    ensures [s[0]] + (s[1..][..j] + s[1..][j + 1..]) == s[..j + 1] + s[j + 1 + 1..]
  {
    var l := [s[0]] + (s[1..][..j] + s[1..][j + 1..]);
    var r := s[..j + 1] + s[j + 1 + 1..];
    assert |l| == |r|;
    forall k | 0 <= k < |l|
      ensures l[k] == r[k]
    {
      if k == 0 {
      } else if k <= j {
        assert l[k] == s[1..][..j][k - 1];
      } else {
        assert l[k] == s[1..][j + 1..][k - 1 - j];
      }
    }
  }

  lemma NoDupTail(s: seq<FdId>)
    requires NoDup(s) && s != []
    ensures NoDup(s[1..]) && s[0] !in s[1..]
  {
    var t := s[1..];
    forall a, b | 0 <= a < b < |t|
      ensures t[a] != t[b]
    {
      assert t[a] == s[a + 1] && t[b] == s[b + 1];
    }
    forall k | 0 <= k < |t|
      ensures t[k] != s[0]
    {
      assert t[k] == s[k + 1];
    }
  }

  /** fd_create on inode `ino`: a fresh fd with one reference, the given
      pid, an empty locked context and no list membership; one inode_ref. */
  function Created(w: World, ino: InodeId, pid: Pid): (r: World)
    ensures r.nextId == w.nextId + 1 && r.fds.Keys == w.fds.Keys + {w.nextId}
    ensures r.fds[w.nextId] == Fd(1, ino, pid, [], true, true)
    ensures forall j :: j in w.fds && j != w.nextId ==> r.fds[j] == w.fds[j]
    ensures r.inodes == w.inodes && r.trace == w.trace + [InodeRef(ino)]
  {
    w.(fds := w.fds[w.nextId := Fd(1, ino, pid, [], true, true)],
       trace := w.trace + [InodeRef(ino)],
       nextId := w.nextId + 1)
  }

  /** _fd_ref. */
  function Refd(w: World, id: FdId): (r: World)
    requires id in w.fds
    ensures r.fds.Keys == w.fds.Keys && r.fds[id] == w.fds[id].(refcount := w.fds[id].refcount + 1)
    ensures forall j :: j in w.fds && j != id ==> r.fds[j] == w.fds[j]
    ensures r.inodes == w.inodes && r.trace == w.trace && r.nextId == w.nextId
  {
    w.(fds := w.fds[id := w.fds[id].(refcount := w.fds[id].refcount + 1)])
  }

  /** _fd_unref: one reference fewer; at zero the fd leaves its inode's
      fd_list. */
  function Released(w: World, id: FdId): (r: World)
    requires id in w.fds && w.fds[id].refcount > 0 && w.fds[id].inode in w.inodes
    ensures r.fds.Keys == w.fds.Keys && r.fds[id] == w.fds[id].(refcount := w.fds[id].refcount - 1)
    ensures forall j :: j in w.fds && j != id ==> r.fds[j] == w.fds[j]
    ensures r.inodes.Keys == w.inodes.Keys && r.trace == w.trace && r.nextId == w.nextId
    ensures forall i :: i in w.inodes && (i != w.fds[id].inode || r.fds[id].refcount > 0) ==> r.inodes[i] == w.inodes[i]
    ensures r.fds[id].refcount == 0 ==>
      var ino := w.fds[id].inode;
      r.inodes[ino] == w.inodes[ino].(fdList := Remove(w.inodes[ino].fdList, id)) && id !in r.inodes[ino].fdList
  {
    var f := w.fds[id].(refcount := w.fds[id].refcount - 1);
    var w1 := w.(fds := w.fds[id := f]);
    if f.refcount == 0 then
      w1.(inodes := w.inodes[f.inode := w.inodes[f.inode].(fdList := Remove(w.inodes[f.inode].fdList, id))])
    else
      w1
  }

  /** Translator `key` of `graph` exists and has the callback that teardown
      fires for this kind of inode. */
  predicate HasCallback(graph: map<string, Callbacks>, key: string, isDir: bool)
  {
    key in graph && (if isDir then graph[key].releasedir else graph[key].release)
  }

  function Callback(key: string, isDir: bool, id: FdId): Event
  {
    if isDir then ReleaseDir(key, id) else Release(key, id)
  }

  /** What the teardown walk does for one context key. */
  function Notify(graph: map<string, Callbacks>, isDir: bool, id: FdId, key: string): seq<Event>
  {
    if HasCallback(graph, key, isDir) then [Callback(key, isDir, id)] else []
  }

  /** The callbacks fired by the teardown walk over `keys`. */
  function ReleaseEvents(keys: seq<string>, graph: map<string, Callbacks>, isDir: bool, id: FdId): (r: seq<Event>)
    ensures |r| <= |keys|
    decreases |keys|
  {
    if keys == [] then []
    else ReleaseEvents(keys[..|keys| - 1], graph, isDir, id) + Notify(graph, isDir, id, keys[|keys| - 1])
  }

  /** One more key of the walk adds that key's notification. */
  lemma ReleaseEventsStep(keys: seq<string>, i: nat, graph: map<string, Callbacks>, isDir: bool, id: FdId)
    requires i < |keys|
    ensures ReleaseEvents(keys[..i + 1], graph, isDir, id) == ReleaseEvents(keys[..i], graph, isDir, id) + Notify(graph, isDir, id, keys[i])
  {
    assert keys[..i + 1][..i] == keys[..i];
  }

  /** Everything fd_destroy calls out to: the callbacks, then inode_unref. */
  function Teardown(w: World, id: FdId): (r: seq<Event>)
    requires id in w.fds && w.fds[id].inode in w.inodes
    ensures |r| >= 1 && r[|r| - 1] == InodeUnref(w.fds[id].inode)
    ensures |r| <= |w.fds[id].ctx| + 1
  {
    var f := w.fds[id];
    var ino := w.inodes[f.inode];
    ReleaseEvents(f.ctx, ino.graph, ino.isDir, id) + [InodeUnref(f.inode)]
  }

  /** fd_destroy: the teardown calls, then the fd is freed. */
  function Destroyed(w: World, id: FdId): (r: World)
    requires id in w.fds && w.fds[id].inode in w.inodes
    ensures r.fds.Keys == w.fds.Keys && r.fds[id] == w.fds[id].(alive := false)
    ensures forall j :: j in w.fds && j != id ==> r.fds[j] == w.fds[j]
    ensures r.inodes == w.inodes && r.nextId == w.nextId && r.trace == w.trace + Teardown(w, id)
  {
    w.(fds := w.fds[id := w.fds[id].(alive := false)], trace := w.trace + Teardown(w, id))
  }

  /** fd_unref on a non-NULL fd. */
  function Unrefd(w: World, id: FdId): (r: World)
    requires id in w.fds && w.fds[id].refcount > 0 && w.fds[id].inode in w.inodes
    ensures r.fds.Keys == w.fds.Keys && r.fds[id].refcount == w.fds[id].refcount - 1
    ensures forall j :: j in w.fds && j != id ==> r.fds[j] == w.fds[j]
    ensures r.fds[id].alive <==> w.fds[id].alive && w.fds[id].refcount > 1
    ensures r.nextId == w.nextId && (w.fds[id].refcount > 1 ==> r.trace == w.trace)
  {
    var w1 := Released(w, id);
    if w1.fds[id].refcount == 0 then Destroyed(w1, id) else w1
  }

  /** fd_bind: list_add puts the fd right after the list head. */
  function Bound(w: World, id: FdId): (r: World)
    requires id in w.fds && w.fds[id].inode in w.inodes
    ensures r.fds == w.fds && r.trace == w.trace && r.nextId == w.nextId && r.inodes.Keys == w.inodes.Keys
    ensures r.inodes[w.fds[id].inode].fdList == [id] + w.inodes[w.fds[id].inode].fdList
    ensures forall i :: i in w.inodes && i != w.fds[id].inode ==> r.inodes[i] == w.inodes[i]
  {
    var ino := w.fds[id].inode;
    w.(inodes := w.inodes[ino := w.inodes[ino].(fdList := [id] + w.inodes[ino].fdList)])
  }

  /** The fd_lookup test: any fd when `pid` is 0, else one with that pid. */
  predicate Matches(fds: map<FdId, Fd>, id: FdId, pid: Pid)
  {
    id in fds && (pid == 0 || fds[id].pid == pid)
  }

  /** The entry fd_lookup picks: the first match walking from the head. */
  function FirstMatch(list: seq<FdId>, fds: map<FdId, Fd>, pid: Pid): (r: Option<FdId>)
    ensures r.Some? ==> r.value in list && Matches(fds, r.value, pid)
  {
    if list == [] then None
    else if Matches(fds, list[0], pid) then Some(list[0])
    else FirstMatch(list[1..], fds, pid)
  }

  /** `n` successive fd_ref calls. */
  function RefN(w: World, id: FdId, n: nat): (r: World)
    requires id in w.fds
    ensures r == w.(fds := w.fds[id := w.fds[id].(refcount := w.fds[id].refcount + n)])
  {
    if n == 0 then
      assert w.fds[id := w.fds[id]] == w.fds;
      w
    else
      Refd(RefN(w, id, n - 1), id)
  }

  /** `n` successive fd_unref calls, none of them the last reference. */
  function UnrefN(w: World, id: FdId, n: nat): (r: World)
    requires id in w.fds && w.fds[id].refcount > n && w.fds[id].inode in w.inodes
    ensures r == w.(fds := w.fds[id := w.fds[id].(refcount := w.fds[id].refcount - n)])
  {
    if n == 0 then
      assert w.fds[id := w.fds[id]] == w.fds;
      w
    else
      Unrefd(UnrefN(w, id, n - 1), id)
  }

  // ---------------------------------------------------------------------
  // Properties of the lifecycle

  /** fd_create keeps the invariant and yields a fresh, live, unbound fd
      with one reference, the given pid and an empty locked context. */
  lemma CreatedInv(w: World, ino: InodeId, pid: Pid)
    requires Inv(w) && ino in w.inodes
    ensures var w' := Created(w, ino, pid);
      && Inv(w')
      && w.nextId !in w.fds && Alive(w', w.nextId)
      && w'.fds[w.nextId] == Fd(1, ino, pid, [], true, true)
      && (forall i :: i in w'.inodes ==> w.nextId !in w'.inodes[i].fdList)
  {
    var w' := Created(w, ino, pid);
    forall i, id | i in w'.inodes && id in w'.inodes[i].fdList
      ensures OnInode(w', i, id)
    {
      assert OnInode(w, i, id);
    }
  }

  /** fd_ref keeps the invariant. */
  lemma RefdInv(w: World, id: FdId)
    requires Inv(w) && Alive(w, id)
    ensures Inv(Refd(w, id)) && Alive(Refd(w, id), id)
  {
    var w' := Refd(w, id);
    forall i, x | i in w'.inodes && x in w'.inodes[i].fdList
      ensures OnInode(w', i, x)
    {
      assert OnInode(w, i, x);
    }
  }

  /** fd_unref keeps the invariant. */
  lemma UnrefdInv(w: World, id: FdId)
    requires Inv(w) && Alive(w, id)
    ensures Inv(Unrefd(w, id))
  {
    if w.fds[id].refcount == 1 {
      LastUnrefInv(w, id);
    } else {
      var w' := Unrefd(w, id);
      forall i, x | i in w'.inodes && x in w'.inodes[i].fdList
        ensures OnInode(w', i, x)
      {
        assert OnInode(w, i, x);
      }
    }
  }

  /** The last fd_unref: the fd is unlinked from its own list and, being
      on no other list, is on none once it is freed. */
  lemma LastUnrefInv(w: World, id: FdId)
    requires Inv(w) && Alive(w, id) && w.fds[id].refcount == 1
    ensures Inv(Unrefd(w, id))
  {
    var w' := Unrefd(w, id);
    var ino := w.fds[id].inode;
    assert w' == Destroyed(Released(w, id), id);
    forall i, x | i in w'.inodes && x in w'.inodes[i].fdList
      ensures OnInode(w', i, x)
    {
      if i == ino {
        assert x in Remove(w.inodes[ino].fdList, id);
      }
      assert x in w.inodes[i].fdList;
      assert OnInode(w, i, x);
    }
    forall i | i in w'.inodes
      ensures NoDup(w'.inodes[i].fdList)
    {
      assert NoDup(w.inodes[i].fdList);
    }
  }

  /** The last fd_unref detaches the fd from every fd_list, frees it and
      makes exactly the teardown calls; any other fd_unref only decrements
      the count and calls nothing. */
  lemma UnrefdEffect(w: World, id: FdId)
    requires Inv(w) && Alive(w, id)
    ensures var w' := Unrefd(w, id);
      && id in w'.fds
      && w'.fds[id].refcount == w.fds[id].refcount - 1
      && (w.fds[id].refcount == 1 ==>
            && !Alive(w', id)
            && (forall i :: i in w'.inodes ==> id !in w'.inodes[i].fdList)
            && w'.trace == w.trace + Teardown(w, id))
      && (w.fds[id].refcount > 1 ==>
            && Alive(w', id)
            && w'.inodes == w.inodes
            && w'.trace == w.trace)
  {
    var w' := Unrefd(w, id);
    if w.fds[id].refcount == 1 {
      forall i | i in w'.inodes
        ensures id !in w'.inodes[i].fdList
      {
        if i != w.fds[id].inode {
          assert w'.inodes[i] == w.inodes[i];
          assert id in w.inodes[i].fdList ==> OnInode(w, i, id);
        }
      }
    }
  }

  /** fd_bind on an unlisted live fd keeps the invariant and puts it at
      the front of its inode's fd_list. */
  lemma BoundInv(w: World, id: FdId)
    requires Inv(w) && Alive(w, id) && id !in w.inodes[w.fds[id].inode].fdList
    ensures Inv(Bound(w, id))
    ensures Bound(w, id).inodes[w.fds[id].inode].fdList == [id] + w.inodes[w.fds[id].inode].fdList
  {
    var ino := w.fds[id].inode;
    var w' := Bound(w, id);
    var l := w.inodes[ino].fdList;
    forall i | i in w'.inodes
      ensures NoDup(w'.inodes[i].fdList)
    {
      if i == ino {
        forall a, b | 0 <= a < b < |[id] + l|
          ensures ([id] + l)[a] != ([id] + l)[b]
        {
          if a == 0 {
            assert ([id] + l)[b] == l[b - 1];
            assert l[b - 1] in l;
          }
        }
      }
    }
    forall i, x | i in w'.inodes && x in w'.inodes[i].fdList
      ensures OnInode(w', i, x)
    {
      if i != ino || x != id {
        assert x in w.inodes[i].fdList;
      }
    }
  }

  /** Matched fd_ref and fd_unref calls leave the fd where it was. */
  lemma RefUnrefBalanced(w: World, id: FdId, n: nat)
    requires Inv(w) && Alive(w, id)
    ensures var r := RefN(w, id, n);
      r.fds[id].refcount > n && UnrefN(r, id, n) == w
  {
    var r := RefN(w, id, n);
    assert r.fds[id].refcount == w.fds[id].refcount + n;
    assert UnrefN(r, id, n).fds == w.fds;
  }

  /** An fd created with one reference and referenced twice survives two
      fd_unref calls, still listed on its inode, and the third frees it and
      takes it off the list. */
  lemma RefTwiceUnrefThrice(w: World, ino: InodeId, pid: Pid)
    requires Inv(w) && ino in w.inodes
    ensures var id := w.nextId;
      var c := Created(w, ino, pid);
      && Alive(c, id) && c.fds[id].inode in c.inodes
      && var b := Bound(c, id);
      var w2 := Refd(Refd(b, id), id);
      && w2.fds[id].refcount == 3 && w2.fds[id].inode in w2.inodes
      && var u1 := Unrefd(w2, id);
      && Alive(u1, id) && u1.fds[id].inode in u1.inodes && u1.fds[id].refcount > 0
      && var u2 := Unrefd(u1, id);
      && Alive(u2, id) && id in u2.inodes[ino].fdList
      && u2.fds[id].inode in u2.inodes && u2.fds[id].refcount > 0
      && var u3 := Unrefd(u2, id);
      && !Alive(u3, id) && id !in u3.inodes[ino].fdList
  {
    var id := w.nextId;
    CreatedInv(w, ino, pid);
    var c := Created(w, ino, pid);
    BoundInv(c, id);
    var b := Bound(c, id);
    RefdInv(b, id);
    RefdInv(Refd(b, id), id);
    var w2 := Refd(Refd(b, id), id);
    UnrefdInv(w2, id);
    UnrefdEffect(w2, id);
    var u1 := Unrefd(w2, id);
    UnrefdInv(u1, id);
    UnrefdEffect(u1, id);
    var u2 := Unrefd(u1, id);
    UnrefdEffect(u2, id);
  }

  /** FirstMatch finds the first matching entry, and None exactly when no
      entry matches. */
  lemma {:induction false} FirstMatchSpec(list: seq<FdId>, fds: map<FdId, Fd>, pid: Pid)
    ensures FirstMatch(list, fds, pid).None? <==> forall j :: 0 <= j < |list| ==> !Matches(fds, list[j], pid)
    ensures FirstMatch(list, fds, pid).Some? ==>
      exists k :: 0 <= k < |list| && list[k] == FirstMatch(list, fds, pid).value && Matches(fds, list[k], pid)
        && forall j :: 0 <= j < k ==> !Matches(fds, list[j], pid)
  {
    if list != [] {
      FirstMatchSpec(list[1..], fds, pid);
      if !Matches(fds, list[0], pid) {
        forall j | 0 < j < |list|
          ensures list[j] == list[1..][j - 1]
        {
        }
        if FirstMatch(list, fds, pid).Some? {
          var k :| 0 <= k < |list[1..]| && list[1..][k] == FirstMatch(list[1..], fds, pid).value
            && Matches(fds, list[1..][k], pid) && forall j :: 0 <= j < k ==> !Matches(fds, list[1..][j], pid);
          assert list[k + 1] == list[1..][k];
          assert forall j :: 0 <= j < k + 1 ==> !Matches(fds, list[j], pid) by {
            forall j | 0 <= j < k + 1
              ensures !Matches(fds, list[j], pid)
            {
              if j > 0 {
                assert list[j] == list[1..][j - 1];
              }
            }
          }
        }
      }
    }
  }

  /** The most recently bound fd is the one fd_lookup returns, for the
      wildcard pid and for its own pid. */
  lemma LookupAfterBind(w: World, id: FdId, pid: Pid)
    requires Inv(w) && Alive(w, id) && id !in w.inodes[w.fds[id].inode].fdList
    requires pid == 0 || w.fds[id].pid == pid
    ensures var b := Bound(w, id);
      FirstMatch(b.inodes[w.fds[id].inode].fdList, b.fds, pid) == Some(id)
  {
    BoundInv(w, id);
  }

  /** fd_list_empty(inode) holds exactly when fd_lookup(inode, 0) finds
      nothing. */
  lemma ListEmptyIffNoFd(w: World, ino: InodeId)
    requires Inv(w) && ino in w.inodes
    ensures w.inodes[ino].fdList == [] <==> FirstMatch(w.inodes[ino].fdList, w.fds, 0).None?
  {
    var l := w.inodes[ino].fdList;
    if l != [] {
      assert l[0] in l;
      assert OnInode(w, ino, l[0]);
    }
  }

  /** The teardown walk visits the keys in order and never stops early:
      walking a + b is walking a, then walking b. */
  lemma {:induction false} ReleaseEventsAppend(a: seq<string>, b: seq<string>, graph: map<string, Callbacks>, isDir: bool, id: FdId)
    ensures ReleaseEvents(a + b, graph, isDir, id) == ReleaseEvents(a, graph, isDir, id) + ReleaseEvents(b, graph, isDir, id)
    decreases |b|
  {
    if b == [] {
      assert a + b == a;
    } else {
      var b0 := b[..|b| - 1];
      assert (a + b)[..|a + b| - 1] == a + b0;
      assert (a + b)[|a + b| - 1] == b[|b| - 1];
      ReleaseEventsAppend(a, b0, graph, isDir, id);
    }
  }

  /** The walk fires a callback for exactly the keys whose translator is
      found and has the callback for this kind of inode (releasedir for a
      directory, release otherwise), at most one per key, and nothing
      else. */
  lemma {:induction false} ReleaseEventsExactly(keys: seq<string>, graph: map<string, Callbacks>, isDir: bool, id: FdId)
    ensures forall k :: Callback(k, isDir, id) in ReleaseEvents(keys, graph, isDir, id) <==> k in keys && HasCallback(graph, k, isDir)
    ensures forall e :: e in ReleaseEvents(keys, graph, isDir, id) ==>
      (e.Release? || e.ReleaseDir?) && e == Callback(e.xl, isDir, id)
    decreases |keys|
  {
    if keys != [] {
      var init := keys[..|keys| - 1];
      var last := keys[|keys| - 1];
      ReleaseEventsExactly(init, graph, isDir, id);
      assert keys == init + [last];
      forall k
        ensures k in keys <==> k in init || k == last
      {
      }
    }
  }

  // ---------------------------------------------------------------------
  // The store of fd objects, updated in place

  class FdStore {
    var fds: map<FdId, Fd>
    var inodes: map<InodeId, Inode>
    var trace: seq<Event>
    var nextId: nat

    function State(): World
      reads this
    {
      World(fds, inodes, trace, nextId)
    }

    ghost predicate Valid()
      reads this
    {
      Inv(State())
    }

    predicate Live(id: FdId)
      reads this
    {
      id in fds && fds[id].alive
    }

    /** A store with no fd objects over inodes that have none open. */
    constructor (inodes0: map<InodeId, Inode>)
      requires forall ino :: ino in inodes0 ==> inodes0[ino].fdList == []
      ensures Valid() && State() == World(map[], inodes0, [], 0)
    {
      fds := map[];
      inodes := inodes0;
      trace := [];
      nextId := 0;
    }

    /** fd_create: NULL for a NULL inode, otherwise a fresh fd holding one
        reference and one inode reference, not yet on any fd_list. */
    method Create(ino: Option<InodeId>, pid: Pid) returns (r: Option<FdId>)
      requires Valid() && (ino.Some? ==> ino.value in inodes)
      modifies this
      ensures Valid()
      ensures ino.None? ==> r.None? && State() == old(State())
      ensures ino.Some? ==> r == Some(old(nextId)) && old(nextId) !in old(fds)
      ensures ino.Some? ==> State() == Created(old(State()), ino.value, pid)
    {
      if ino.None? {
        return None;
      }
      var id := nextId;
      nextId := nextId + 1;
      trace := trace + [InodeRef(ino.value)];
      fds := fds[id := Fd(0, ino.value, pid, [], true, true)];
      RefLocked(id);
      r := Some(id);
      CreatedInv(old(State()), ino.value, pid);
    }

    /** _fd_ref: the caller holds the inode lock. */
    method RefLocked(id: FdId)
      requires Live(id)
      modifies this
      ensures State() == Refd(old(State()), id)
    {
      fds := fds[id := fds[id].(refcount := fds[id].refcount + 1)];
    }

    /** fd_ref: NULL passes through; otherwise one more reference. */
    method Ref(fd: Option<FdId>) returns (r: Option<FdId>)
      requires Valid() && (fd.Some? ==> Live(fd.value))
      modifies this
      ensures Valid() && r == fd
      ensures State() == if fd.Some? then Refd(old(State()), fd.value) else old(State())
    {
      if fd.None? {
        return None;
      }
      RefLocked(fd.value);
      r := fd;
      RefdInv(old(State()), fd.value);
    }

    /** _fd_unref: asserts the count is positive, decrements it, and at
        zero unlinks the fd from its inode's fd_list. */
    method UnrefLocked(id: FdId)
      requires Live(id) && fds[id].refcount > 0 && fds[id].inode in inodes
      modifies this
      ensures State() == Released(old(State()), id)
    {
      var f := fds[id].(refcount := fds[id].refcount - 1);
      fds := fds[id := f];
      if f.refcount == 0 {
        inodes := inodes[f.inode := inodes[f.inode].(fdList := Remove(inodes[f.inode].fdList, id))];
      }
    }

    /** fd_destroy, reached only from fd_unref once the count is zero and
        the fd is off its inode's list: the notification walk, then
        inode_unref, then the fd is freed. */
    method Destroy(id: FdId)
      requires Live(id) && fds[id].inode in inodes
      requires fds[id].refcount == 0 && id !in inodes[fds[id].inode].fdList
      modifies this
      ensures State() == Destroyed(old(State()), id)
    {
      var f := fds[id];
      var inode := inodes[f.inode];
      NotifyAll(f.ctx, inode.graph, inode.isDir, id);
      trace := trace + [InodeUnref(f.inode)];
      fds := fds[id := f.(alive := false)];
    }

    /** The walk of fd_destroy over the context keys: fire releasedir (on
        a directory) or release (otherwise) on every translator that is
        found and has it, skipping the rest. */
    method NotifyAll(keys: seq<string>, graph: map<string, Callbacks>, isDir: bool, id: FdId)
      modifies this
      ensures fds == old(fds) && inodes == old(inodes) && nextId == old(nextId)
      ensures trace == old(trace) + ReleaseEvents(keys, graph, isDir, id)
    {
      var i := 0;
      while i < |keys|
        invariant 0 <= i <= |keys|
        invariant fds == old(fds) && inodes == old(inodes) && nextId == old(nextId)
        invariant trace == old(trace) + ReleaseEvents(keys[..i], graph, isDir, id)
      {
        var key := keys[i];
        ReleaseEventsStep(keys, i, graph, isDir, id);
        if key in graph {
          var xl := graph[key];
          if isDir {
            if xl.releasedir {
              trace := trace + [ReleaseDir(key, id)];
            }
          } else {
            if xl.release {
              trace := trace + [Release(key, id)];
            }
          }
        }
        i := i + 1;
      }
      assert keys[..i] == keys;
    }

    /** fd_unref: NULL is ignored; otherwise drop one reference and, if it
        was the last, destroy the fd after it has left the list. */
    method Unref(fd: Option<FdId>)
      requires Valid() && (fd.Some? ==> Live(fd.value))
      modifies this
      ensures Valid()
      ensures State() == if fd.Some? then Unrefd(old(State()), fd.value) else old(State())
    {
      if fd.None? {
        return;
      }
      var id := fd.value;
      UnrefLocked(id);
      var refcount := fds[id].refcount;
      if refcount == 0 {
        Destroy(id);
      }
      UnrefdInv(old(State()), id);
    }

    /** fd_bind: it reads `fd->inode` before testing `fd`, so `fd` must not
        be NULL; the fd goes on the front of its inode's fd_list. */
    method Bind(fd: Option<FdId>) returns (r: Option<FdId>)
      requires Valid() && fd.Some? && Live(fd.value) && fds[fd.value].inode in inodes
      requires fd.value !in inodes[fds[fd.value].inode].fdList
      modifies this
      ensures Valid() && r == fd
      ensures State() == Bound(old(State()), fd.value)
    {
      var id := fd.value;
      var ino := fds[id].inode;
      inodes := inodes[ino := inodes[ino].(fdList := [id] + inodes[ino].fdList)];
      r := fd;
      BoundInv(old(State()), id);
    }

    /** fd_lookup: walk the inode's fd_list from the front and take a
        reference on the first fd that matches `pid` (any fd for pid 0). */
    method Lookup(ino: InodeId, pid: Pid) returns (r: Option<FdId>)
      requires Valid() && ino in inodes
      modifies this
      ensures Valid()
      ensures r == FirstMatch(old(inodes[ino].fdList), old(fds), pid)
      ensures r.Some? ==> r.value in old(fds)
      ensures State() == if r.Some? then Refd(old(State()), r.value) else old(State())
    {
      var list := inodes[ino].fdList;
      if list == [] {
        return None;
      }
      var i := 0;
      while i < |list|
        invariant 0 <= i <= |list|
        invariant State() == old(State())
        invariant FirstMatch(list[i..], fds, pid) == FirstMatch(list, fds, pid)
      {
        var iter := list[i];
        assert list[i..][0] == iter && list[i..][1..] == list[i + 1..];
        assert list[i] in list;
        assert OnInode(State(), ino, iter);
        if pid != 0 {
          if fds[iter].pid == pid {
            RefLocked(iter);
            r := Some(iter);
            RefdInv(old(State()), iter);
            return;
          }
        } else {
          RefLocked(iter);
          r := Some(iter);
          RefdInv(old(State()), iter);
          return;
        }
        i := i + 1;
      }
      r := None;
    }

    /** fd_list_empty. */
    method ListEmpty(ino: InodeId) returns (empty: bool)
      requires ino in inodes
      ensures empty <==> inodes[ino].fdList == []
    {
      empty := inodes[ino].fdList == [];
    }

    /** A translator attaching its context to the fd, a dictionary insert
        done outside fd.c. The model places the new key last in the walk
        order; where the dictionary really places it is not modelled. */
    method AddCtxKey(id: FdId, key: string)
      requires Valid() && Live(id)
      modifies this
      ensures Valid()
      ensures key in old(fds[id].ctx) ==> State() == old(State())
      ensures key !in old(fds[id].ctx) ==>
        State() == old(State()).(fds := old(fds)[id := old(fds[id]).(ctx := old(fds[id].ctx) + [key])])
    {
      if key !in fds[id].ctx {
        ghost var w := State();
        fds := fds[id := fds[id].(ctx := fds[id].ctx + [key])];
        forall i, x | i in inodes && x in inodes[i].fdList
          ensures OnInode(State(), i, x)
        {
          assert OnInode(w, i, x);
        }
      }
    }
  }
}
