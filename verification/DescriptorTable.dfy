/**
 The descriptor table in place: two arrays edited by the table functions, each proved to take
 exactly the step of the state machine that it stands for.
 */
module DescriptorTable {
  import opened Descriptors

  class FdTable {
    const fdmap: array<Entry>
    const pool: array<Slot>
    ghost var grabs: multiset<nat>
    ghost var log: seq<Event>

    ghost function Now(): World
      reads this, fdmap, pool
    {
      World(fdmap[..], pool[..], grabs, log)
    }

    ghost predicate Valid()
      reads this, fdmap, pool
    {
      fdmap as object != pool as object && Inv(Now())
    }

    constructor ()
      ensures Valid() && Now() == Initial() && Exact(Now()) && fresh(fdmap) && fresh(pool)
    {
      fdmap := new Entry[MAX_FILES](i requires 0 <= i => if i < 3 then To(i) else Empty);
      pool := new Slot[MAX_FILES](i => if i < 3 then Slot(i, Tty, 1) else ZEROED);
      grabs, log := multiset{}, [Opened(0), Opened(1), Opened(2)];
      new;
      assert fdmap[..] == Initial().fds && pool[..] == Initial().pool;
      InitialInv();
    }

    /** Acquire the lowest free descriptor and slot, and install a handle in it. */
    method Acquire(uid: int, kind: Kind) returns (code: int)
      requires Valid()
      modifies this, fdmap, pool
      ensures Valid()
      ensures Now() == Open(old(Now()), uid, kind).world && code == Open(old(Now()), uid, kind).code
      ensures old(Exact(Now())) ==> Exact(Now())
    {
      hide Inv, Exact;
      OpenKeeps(Now(), uid, kind);
      assert Shaped(Now()) by { InvShaped(Now()); }
      ghost var first := FirstEmpty(fdmap[..], 3);
      for fd := 3 to MAX_FILES
        invariant Now() == old(Now())
        invariant FirstEmpty(fdmap[..], 3) >= fd || FirstUnused(pool[..], 0) == MAX_FILES
      {
        if fdmap[fd] == Empty {
          for i := 0 to MAX_FILES
            invariant Now() == old(Now())
            invariant FirstUnused(pool[..], 0) >= i
          {
            if pool[i].refs == 0 {
              fdmap[fd] := To(i);
              pool[i] := Slot(uid, kind, 1);
              log := log + [Opened(i)];
              assert first == fd;
              assert Now().fds == old(Now()).fds[fd := To(i)] && Now().pool == old(Now()).pool[i := Slot(uid, kind, 1)];
              return fd;
            }
          }
        }
      }
      return -1;
    }

    method FdDrop(s: nat, reply: CloseReply) returns (code: int)
      requires fdmap as object != pool as object && s < pool.Length
      modifies this`log, pool
      ensures Now() == Dropped(old(Now()), s, reply)
      ensures code == DropCode(old(Now()).pool[s], reply)
    {
      ghost var w := Now();
      if pool[s].refs == 1 {
        log := log + [Closed(s, CloseSucceeds(reply), Holders(w, s) - 1)];
        if pool[s].kind == Socket && reply.ret < 0 {
          code := -reply.netErrno;
        } else if reply.ret < 0 {
          code := -(reply.ret % 256);
        } else {
          pool[s] := ZEROED;
          code := 0;
        }
      } else {
        pool[s] := pool[s].(refs := pool[s].refs - 1);
        code := 0;
      }
      assert pool[..] == w.pool[s := DropSlot(w.pool[s], reply)];
    }

    method Release(fd: int, reply: CloseReply) returns (res: int)
      requires Valid()
      modifies this`log, fdmap, pool
      ensures Valid()
      ensures Now() == Close(old(Now()), fd, reply).world && res == Close(old(Now()), fd, reply).code
    {
      hide Inv, Refs;
      InvShaped(Now());
      CloseKeeps(Now(), fd, reply);
      if 0 <= fd < fdmap.Length && fdmap[fd].To? {
        var code := FdDrop(fdmap[fd].slot, reply);
        if code >= 0 {
          fdmap[fd] := Empty;
          assert fdmap[..] == old(Now()).fds[fd := Empty];
          return 0;
        }
      }
      return -1;
    }

    method AddRef(oldfd: nat, newfd: nat)
      requires fdmap as object != pool as object && Shaped(Now())
      requires oldfd < MAX_FILES && newfd < MAX_FILES && fdmap[oldfd].To?
      modifies fdmap, pool
      ensures Now() == Share(old(Now()), oldfd, newfd)
    {
      var s := fdmap[oldfd].slot;
      fdmap[newfd] := fdmap[oldfd];
      pool[s] := pool[s].(refs := pool[s].refs + 1);
      assert fdmap[..] == old(Now()).fds[newfd := To(s)];
      assert pool[..] == old(Now()).pool[s := old(pool[s]).(refs := old(pool[s]).refs + 1)];
    }

    method Duplicate(fd: int, minfd: int) returns (code: int)
      requires Valid()
      modifies fdmap, pool
      ensures Valid()
      ensures Now() == Dup(old(Now()), fd, minfd).world && code == Dup(old(Now()), fd, minfd).code
    {
      hide Inv, Refs, Share;
      InvShaped(Now());
      DupKeeps(Now(), fd, minfd);
      if 0 <= fd < fdmap.Length && fdmap[fd].To? {
        var fd2 := if minfd < 3 then 3 else minfd;
        ghost var start := fd2;
        while fd2 < MAX_FILES
          invariant Now() == old(Now()) && start <= fd2
          invariant FirstEmpty(fdmap[..], start) == FirstEmpty(fdmap[..], fd2)
        {
          if fdmap[fd2] == Empty {
            AddRef(fd, fd2);
            return fd2;
          }
          fd2 := fd2 + 1;
        }
      }
      return -1;
    }

    method Duplicate2(oldfd: int, newfd: int, reply: CloseReply) returns (code: int)
      requires Valid()
      modifies this`log, fdmap, pool
      ensures Valid()
      ensures Now() == Dup2(old(Now()), oldfd, newfd, reply).world && code == Dup2(old(Now()), oldfd, newfd, reply).code
    {
      hide Inv, Refs, Share, Close;
      InvShaped(Now());
      Dup2Keeps(Now(), oldfd, newfd, reply);
      if newfd < 0 || newfd >= MAX_FILES {
        return -1;
      }
      if 0 <= oldfd < fdmap.Length && fdmap[oldfd].To? {
        if oldfd == newfd {
          return newfd;
        }
        CloseOthers(Now(), newfd, reply, oldfd);
        var _ := Release(newfd, reply);
        InvShaped(Now());
        if fdmap[newfd] == Empty {
          AddRef(oldfd, newfd);
          return newfd;
        }
      }
      return -1;
    }

    /** The slot grabbed, or minus one. */
    method GrabFd(fd: int) returns (code: int)
      requires Valid()
      modifies this`grabs, pool
      ensures Valid()
      ensures Now() == Grab(old(Now()), fd).world && code == Grab(old(Now()), fd).code
    {
      hide Inv, Refs;
      InvShaped(Now());
      GrabKeeps(Now(), fd);
      if 0 <= fd < fdmap.Length && fdmap[fd].To? {
        var s := fdmap[fd].slot;
        pool[s] := pool[s].(refs := pool[s].refs + 1);
        grabs := grabs + multiset{s};
        assert pool[..] == old(Now()).pool[s := old(pool[s]).(refs := old(pool[s]).refs + 1)];
        return s;
      }
      return -1;
    }

    method DropGrabbed(s: nat, reply: CloseReply) returns (code: int)
      requires Valid() && s in grabs
      modifies this, pool
      ensures Valid()
      ensures Now() == Drop(old(Now()), s, reply).world && code == Drop(old(Now()), s, reply).code
    {
      hide Inv, Refs;
      InvShaped(Now());
      DropKeeps(Now(), s, reply);
      code := FdDrop(s, reply);
      grabs := grabs - multiset{s};
    }
  }

  lemma InvShaped(w: World)
    requires Inv(w)
    ensures Shaped(w)
  {
  }

  lemma CloseOthers(w: World, fd: int, reply: CloseReply, other: nat)
    requires Shaped(w) && other < MAX_FILES && other != fd
    ensures Close(w, fd, reply).world.fds[other] == w.fds[other]
  {
  }
}
