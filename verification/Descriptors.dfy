/**
 The descriptor table as a state machine. Every table function runs under one mutex, so a run
 of the program is a sequence of atomic steps taken by any number of threads. The ghost part of
 the state is the multiset of grabs not yet dropped and a log of opened and closed handles.
 */
module Descriptors {
  const MAX_FILES: nat := 256

  datatype Kind = File | Directory | Socket | Tty | Pipe

  datatype Slot = Slot(uid: int, kind: Kind, refs: int)

  datatype Entry = Empty | To(slot: nat)

  /** The kernel's answer to a close, and what the socket error table makes of a failure. */
  datatype CloseReply = CloseReply(ret: int, netErrno: int)

  /** others is the number of references, besides the one being dropped, at the time of the close. */
  datatype Event = Opened(slot: nat) | Closed(slot: nat, done: bool, others: int)

  datatype World = World(fds: seq<Entry>, pool: seq<Slot>, grabs: multiset<nat>, log: seq<Event>)

  datatype Answer = Answer(world: World, code: int)

  const ZEROED := Slot(0, File, 0)

  // ---------------------------------------------------------------- counting references

  /** How many descriptors point at slot s. */
  function Refs(fds: seq<Entry>, s: nat): nat {
    if fds == [] then 0
    else Refs(fds[..|fds| - 1], s) + if fds[|fds| - 1] == To(s) then 1 else 0
  }

  function Holders(w: World, s: nat): nat { Refs(w.fds, s) + w.grabs[s] }

  // ---------------------------------------------------------------- the handle ledger

  datatype Ledger = Broken | Live(open: set<nat>)

  /**
   Replays the log. A slot may be opened only when it is not open; it may be closed only when it is
   open and nobody else refers to it; a close that succeeds makes it not open.
   */
  function Replay(log: seq<Event>): Ledger {
    if log == [] then Live({}) else Post(Replay(log[..|log| - 1]), log[|log| - 1])
  }

  function Post(before: Ledger, event: Event): Ledger {
    if before.Broken? then Broken
    else
      match event
      case Opened(s) => if s in before.open then Broken else Live(before.open + {s})
      case Closed(s, done, others) =>
        if s !in before.open || others != 0 then Broken
        else if done then Live(before.open - {s}) else before
  }

  // ---------------------------------------------------------------- invariants

  ghost predicate Shaped(w: World) {
    && |w.fds| == MAX_FILES && |w.pool| == MAX_FILES
    && (forall i :: 0 <= i < MAX_FILES && w.fds[i].To? ==> w.fds[i].slot < MAX_FILES)
    && (forall s :: s in w.grabs ==> s < MAX_FILES)
  }

  ghost predicate Covered(w: World) {
    forall s :: 0 <= s < |w.pool| ==> w.pool[s].refs >= Holders(w, s)
  }

  ghost predicate Exact(w: World) {
    forall s :: 0 <= s < |w.pool| ==> w.pool[s].refs == Holders(w, s)
  }

  function InUse(pool: seq<Slot>): set<nat> {
    set s: nat | s < |pool| && pool[s].refs > 0
  }

  /** What holds in every reachable state. */
  ghost predicate Inv(w: World) {
    Shaped(w) && Covered(w) && Replay(w.log) == Live(InUse(w.pool))
  }

  // ---------------------------------------------------------------- the steps

  predicate ValidFd(fds: seq<Entry>, fd: int) { 0 <= fd < |fds| && fds[fd].To? }

  /** The first empty descriptor from k on, or the table size. */
  function FirstEmpty(fds: seq<Entry>, k: nat): (r: nat)
    ensures k <= |fds| ==> k <= r <= |fds|
    ensures r < |fds| ==> fds[r] == Empty
    ensures forall i :: k <= i < r && i < |fds| ==> fds[i] != Empty
    decreases |fds| - k
  {
    if k >= |fds| then k else if fds[k] == Empty then k else FirstEmpty(fds, k + 1)
  }

  /** The first slot from k on that nobody refers to, or the pool size. */
  function FirstUnused(pool: seq<Slot>, k: nat): (r: nat)
    ensures k <= |pool| ==> k <= r <= |pool|
    ensures r < |pool| ==> pool[r].refs == 0
    ensures forall i :: k <= i < r && i < |pool| ==> pool[i].refs != 0
    decreases |pool| - k
  {
    if k >= |pool| then k else if pool[k].refs == 0 then k else FirstUnused(pool, k + 1)
  }

  /** A close succeeded. */
  predicate CloseSucceeds(reply: CloseReply) { reply.ret >= 0 }

  /** What the drop reports: a failed close reports its error negated, and that can fail to be negative. */
  function DropCode(p: Slot, reply: CloseReply): int {
    if p.refs != 1 || reply.ret >= 0 then 0
    else if p.kind == Socket then -reply.netErrno
    else -(reply.ret % 256)
  }

  function DropSlot(p: Slot, reply: CloseReply): Slot {
    if p.refs != 1 then p.(refs := p.refs - 1)
    else if reply.ret >= 0 then ZEROED
    else p
  }

  /** The pool and the log after one reference to slot s is dropped. */
  function Dropped(w: World, s: nat, reply: CloseReply): World
    requires s < |w.pool|
  {
    w.(pool := w.pool[s := DropSlot(w.pool[s], reply)],
       log := if w.pool[s].refs == 1 then w.log + [Closed(s, CloseSucceeds(reply), Holders(w, s) - 1)] else w.log)
  }

  function Open(w: World, uid: int, kind: Kind): Answer {
    var fd, s := FirstEmpty(w.fds, 3), FirstUnused(w.pool, 0);
    if fd >= |w.fds| || s >= |w.pool| then Answer(w, -1)
    else Answer(w.(fds := w.fds[fd := To(s)], pool := w.pool[s := Slot(uid, kind, 1)], log := w.log + [Opened(s)]), fd)
  }

  function Close(w: World, fd: int, reply: CloseReply): Answer
    requires Shaped(w)
  {
    if !ValidFd(w.fds, fd) then Answer(w, -1)
    else
      var s := w.fds[fd].slot;
      if DropCode(w.pool[s], reply) >= 0 then Answer(Dropped(w, s, reply).(fds := w.fds[fd := Empty]), 0)
      else Answer(Dropped(w, s, reply), -1)
  }

  /** newfd becomes another reference to what oldfd refers to. */
  function Share(w: World, oldfd: nat, newfd: nat): World
    requires Shaped(w) && oldfd < MAX_FILES && newfd < MAX_FILES && w.fds[oldfd].To?
  {
    var s := w.fds[oldfd].slot;
    w.(fds := w.fds[newfd := To(s)], pool := w.pool[s := w.pool[s].(refs := w.pool[s].refs + 1)])
  }

  function Dup(w: World, fd: int, minfd: int): Answer
    requires Shaped(w)
  {
    var fd2 := FirstEmpty(w.fds, if minfd < 3 then 3 else minfd);
    if !ValidFd(w.fds, fd) || fd2 >= |w.fds| then Answer(w, -1)
    else Answer(Share(w, fd, fd2), fd2)
  }

  function Dup2(w: World, oldfd: int, newfd: int, reply: CloseReply): Answer
    requires Shaped(w)
  {
    if newfd < 0 || newfd >= MAX_FILES || !ValidFd(w.fds, oldfd) then Answer(w, -1)
    else if oldfd == newfd then Answer(w, newfd)
    else
      var closed := Close(w, newfd, reply).world;
      if closed.fds[newfd] == Empty then Answer(Share(closed, oldfd, newfd), newfd) else Answer(closed, -1)
  }

  /** The code is the slot grabbed, or minus one. */
  function Grab(w: World, fd: int): Answer
    requires Shaped(w)
  {
    if !ValidFd(w.fds, fd) then Answer(w, -1)
    else
      var s := w.fds[fd].slot;
      Answer(w.(pool := w.pool[s := w.pool[s].(refs := w.pool[s].refs + 1)], grabs := w.grabs + multiset{s}), s)
  }

  function Drop(w: World, s: nat, reply: CloseReply): Answer
    requires Shaped(w) && s in w.grabs
  {
    Answer(Dropped(w, s, reply).(grabs := w.grabs - multiset{s}), DropCode(w.pool[s], reply))
  }

  // ---------------------------------------------------------------- arithmetic of references

  lemma {:induction false} RefsUpdate(fds: seq<Entry>, i: nat, e: Entry, s: nat)
    requires i < |fds|
    ensures Refs(fds[i := e], s) == Refs(fds, s) - (if fds[i] == To(s) then 1 else 0) + (if e == To(s) then 1 else 0)
  {
    var n := |fds| - 1;
    if i < n {
      assert fds[i := e][..n] == fds[..n][i := e];
      RefsUpdate(fds[..n], i, e, s);
    } else {
      assert fds[i := e][..n] == fds[..n];
    }
  }

  lemma {:induction false} RefsPositive(fds: seq<Entry>, i: nat, s: nat)
    requires i < |fds| && fds[i] == To(s)
    ensures Refs(fds, s) >= 1
  {
    if i < |fds| - 1 {
      RefsPositive(fds[..|fds| - 1], i, s);
    }
  }

  lemma ReplayAppend(log: seq<Event>, event: Event)
    ensures Replay(log + [event]) == Post(Replay(log), event)
  {
  }

  // ---------------------------------------------------------------- every step keeps the invariant

  lemma OpenKeeps(w: World, uid: int, kind: Kind)
    requires Inv(w)
    ensures Inv(Open(w, uid, kind).world)
    ensures Exact(Open(w, uid, kind).world) <==> Exact(w)
    ensures Open(w, uid, kind).code >= 0 ==> Holders(w, FirstUnused(w.pool, 0)) == 0
  {
    hide FirstEmpty, FirstUnused, Refs, Replay;
    var fd, k := FirstEmpty(w.fds, 3), FirstUnused(w.pool, 0);
    if fd < |w.fds| && k < |w.pool| {
      var v := Open(w, uid, kind).world;
      forall s | 0 <= s < |w.pool| ensures Holders(v, s) == Holders(w, s) + if s == k then 1 else 0 {
        RefsUpdate(w.fds, fd, To(k), s);
      }
      ReplayAppend(w.log, Opened(k));
      assert InUse(v.pool) == InUse(w.pool) + {k};
      assert w.pool[k].refs >= Holders(w, k);
      SameSurplus(w, v);
    }
  }

  /** Counts that are off by as much as before are exact exactly when they were. */
  lemma SameSurplus(w: World, v: World)
    requires |w.pool| == |v.pool|
    requires forall s :: 0 <= s < |w.pool| ==> Holders(v, s) - v.pool[s].refs == Holders(w, s) - w.pool[s].refs
    ensures Exact(v) <==> Exact(w)
  {
  }

  /** Dropping a reference that is there: the count of that slot follows, except when a close fails. */
  lemma DroppedLedger(w: World, s: nat, reply: CloseReply)
    requires Inv(w) && s < MAX_FILES && Holders(w, s) >= 1
    ensures var v := Dropped(w, s, reply);
      && Replay(v.log) == Live(InUse(v.pool))
      && v.pool[s].refs == w.pool[s].refs - if w.pool[s].refs == 1 && reply.ret < 0 then 0 else 1
    ensures w.pool[s].refs == 1 ==> Holders(w, s) == 1
  {
  }

  /** The close that fd's descriptor needs was tried, failed, and was reported as done. */
  predicate CloseLost(w: World, fd: int, reply: CloseReply) {
    && ValidFd(w.fds, fd) && w.fds[fd].slot < |w.pool|
    && var p := w.pool[w.fds[fd].slot];
       p.refs == 1 && !CloseSucceeds(reply) && DropCode(p, reply) >= 0
  }

  lemma CloseKeeps(w: World, fd: int, reply: CloseReply)
    requires Inv(w)
    ensures Inv(Close(w, fd, reply).world)
    ensures Exact(Close(w, fd, reply).world) <==> Exact(w) && !CloseLost(w, fd, reply)
  {
    if ValidFd(w.fds, fd) {
      var k, v := w.fds[fd].slot, Close(w, fd, reply).world;
      RefsPositive(w.fds, fd, k);
      DroppedLedger(w, k, reply);
      forall s | 0 <= s < MAX_FILES
        ensures Holders(v, s) == Holders(w, s) - if s == k && DropCode(w.pool[k], reply) >= 0 then 1 else 0
      {
        RefsUpdate(w.fds, fd, Empty, s);
      }
      if CloseLost(w, fd, reply) {
        assert v.pool[k].refs == 1 && Holders(v, k) == 0;
      } else {
        SameSurplus(w, v);
      }
    }
  }

  lemma ShareKeeps(w: World, oldfd: nat, newfd: nat)
    requires Inv(w) && oldfd < MAX_FILES && newfd < MAX_FILES && w.fds[oldfd].To? && w.fds[newfd] == Empty
    ensures Inv(Share(w, oldfd, newfd))
    ensures Exact(w) <==> Exact(Share(w, oldfd, newfd))
  {
    var k, v := w.fds[oldfd].slot, Share(w, oldfd, newfd);
    RefsPositive(w.fds, oldfd, k);
    forall s | 0 <= s < MAX_FILES ensures Holders(v, s) - v.pool[s].refs == Holders(w, s) - w.pool[s].refs {
      RefsUpdate(w.fds, newfd, To(k), s);
    }
    assert w.pool[k].refs >= Holders(w, k);
    assert InUse(v.pool) == InUse(w.pool);
  }

  lemma DupKeeps(w: World, fd: int, minfd: int)
    requires Inv(w)
    ensures Inv(Dup(w, fd, minfd).world)
    ensures Exact(w) <==> Exact(Dup(w, fd, minfd).world)
  {
    var fd2 := FirstEmpty(w.fds, if minfd < 3 then 3 else minfd);
    if ValidFd(w.fds, fd) && fd2 < |w.fds| {
      ShareKeeps(w, fd, fd2);
    }
  }

  lemma Dup2Keeps(w: World, oldfd: int, newfd: int, reply: CloseReply)
    requires Inv(w)
    ensures Inv(Dup2(w, oldfd, newfd, reply).world)
    ensures Exact(Dup2(w, oldfd, newfd, reply).world) <==>
        Exact(w) && !(ValidFd(w.fds, oldfd) && oldfd != newfd && CloseLost(w, newfd, reply))
  {
    if 0 <= newfd < MAX_FILES && ValidFd(w.fds, oldfd) && oldfd != newfd {
      CloseKeeps(w, newfd, reply);
      var closed := Close(w, newfd, reply).world;
      if closed.fds[newfd] == Empty {
        ShareKeeps(closed, oldfd, newfd);
      }
    }
  }

  lemma GrabKeeps(w: World, fd: int)
    requires Inv(w)
    ensures Inv(Grab(w, fd).world)
    ensures Exact(w) <==> Exact(Grab(w, fd).world)
  {
    if ValidFd(w.fds, fd) {
      var k, v := w.fds[fd].slot, Grab(w, fd).world;
      RefsPositive(w.fds, fd, k);
      assert forall s :: 0 <= s < MAX_FILES ==> Holders(v, s) - v.pool[s].refs == Holders(w, s) - w.pool[s].refs;
      assert w.pool[k].refs >= Holders(w, k);
      assert InUse(v.pool) == InUse(w.pool);
    }
  }

  lemma DropKeeps(w: World, k: nat, reply: CloseReply)
    requires Inv(w) && k in w.grabs
    ensures Inv(Drop(w, k, reply).world)
    ensures Exact(Drop(w, k, reply).world) <==> Exact(w) && !(w.pool[k].refs == 1 && !CloseSucceeds(reply))
  {
    var v := Drop(w, k, reply).world;
    DroppedLedger(w, k, reply);
    forall s | 0 <= s < MAX_FILES ensures Holders(v, s) == Holders(w, s) - if s == k then 1 else 0 {
    }
    if w.pool[k].refs == 1 && !CloseSucceeds(reply) {
      assert v.pool[k].refs == 1 && Holders(v, k) == 0;
    } else {
      SameSurplus(w, v);
    }
  }

  // ---------------------------------------------------------------- runs

  datatype Op =
    | OpOpen(uid: int, kind: Kind)
    | OpClose(fd: int, reply: CloseReply)
    | OpDup(fd: int, minfd: int)
    | OpDup2(oldfd: int, newfd: int, reply: CloseReply)
    | OpGrab(fd: int)
    | OpDrop(slot: nat, reply: CloseReply)

  /** A thread drops only what some thread has grabbed. */
  predicate Enabled(w: World, op: Op) { op.OpDrop? ==> op.slot in w.grabs }

  function Step(w: World, op: Op): World
    requires Shaped(w) && Enabled(w, op)
  {
    match op
    case OpOpen(uid, kind) => Open(w, uid, kind).world
    case OpClose(fd, reply) => Close(w, fd, reply).world
    case OpDup(fd, minfd) => Dup(w, fd, minfd).world
    case OpDup2(oldfd, newfd, reply) => Dup2(w, oldfd, newfd, reply).world
    case OpGrab(fd) => Grab(w, fd).world
    case OpDrop(slot, reply) => Drop(w, slot, reply).world
  }

  /** The step tries a close that fails, and the reference it stood for goes away all the same. */
  predicate Leaks(w: World, op: Op)
    requires Shaped(w) && Enabled(w, op)
  {
    match op
    case OpClose(fd, reply) => CloseLost(w, fd, reply)
    case OpDup2(oldfd, newfd, reply) => ValidFd(w.fds, oldfd) && oldfd != newfd && CloseLost(w, newfd, reply)
    case OpDrop(slot, reply) => w.pool[slot].refs == 1 && !CloseSucceeds(reply)
    case _ => false
  }

  function Initial(): World {
    World(seq(MAX_FILES, i requires 0 <= i => if i < 3 then To(i) else Empty),
          seq(MAX_FILES, i => if i < 3 then Slot(i, Tty, 1) else ZEROED),
          multiset{}, [Opened(0), Opened(1), Opened(2)])
  }

  /** Worlds visited by an interleaving of steps, from the initial table on. */
  ghost predicate IsRun(ws: seq<World>, ops: seq<Op>) {
    && |ws| == |ops| + 1 && ws[0] == Initial()
    && forall i :: 0 <= i < |ops| ==> Shaped(ws[i]) && Enabled(ws[i], ops[i]) && ws[i + 1] == Step(ws[i], ops[i])
  }

  lemma {:induction false} InitialRefs(n: nat, s: nat)
    requires n <= MAX_FILES
    ensures Refs(Initial().fds[..n], s) == if s < 3 && s < n then 1 else 0
  {
    if n > 0 {
      assert Initial().fds[..n][..n - 1] == Initial().fds[..n - 1];
      InitialRefs(n - 1, s);
    }
  }

  lemma InitialInv()
    ensures Inv(Initial()) && Exact(Initial())
    ensures forall fd :: ValidFd(Initial().fds, fd) <==> 0 <= fd < 3
    ensures forall s :: 0 <= s < MAX_FILES ==> Holders(Initial(), s) == if s < 3 then 1 else 0
    ensures forall s :: 0 <= s < 3 ==> Initial().fds[s] == To(s) && Initial().pool[s].kind == Tty
  {
    var w := Initial();
    forall s | 0 <= s < MAX_FILES ensures Refs(w.fds, s) == if s < 3 then 1 else 0 {
      InitialRefs(MAX_FILES, s);
      assert w.fds[..MAX_FILES] == w.fds;
    }
    assert InUse(w.pool) == {0, 1, 2};
    var l: seq<Event> := [];
    ReplayAppend(l, Opened(0));
    ReplayAppend(l + [Opened(0)], Opened(1));
    ReplayAppend(l + [Opened(0)] + [Opened(1)], Opened(2));
    assert w.log == l + [Opened(0)] + [Opened(1)] + [Opened(2)];
  }

  /** One step keeps the invariant; the counts are exact after it if they were before and it does not leak. */
  lemma StepKeeps(w: World, op: Op)
    requires Inv(w) && Enabled(w, op)
    ensures Inv(Step(w, op))
    ensures Exact(Step(w, op)) <==> Exact(w) && !Leaks(w, op)
  {
    hide Inv, Exact;
    match op
    case OpOpen(uid, kind) => OpenKeeps(w, uid, kind);
    case OpClose(fd, reply) => CloseKeeps(w, fd, reply);
    case OpDup(fd, minfd) => DupKeeps(w, fd, minfd);
    case OpDup2(oldfd, newfd, reply) => Dup2Keeps(w, oldfd, newfd, reply);
    case OpGrab(fd) => GrabKeeps(w, fd);
    case OpDrop(slot, reply) => DropKeeps(w, slot, reply);
  }

  /** In every interleaving the counts cover the references, and equal them exactly as long as no close was lost. */
  lemma {:induction false} RunSafe(ws: seq<World>, ops: seq<Op>, n: nat)
    requires IsRun(ws, ops) && n <= |ops|
    ensures Inv(ws[n])
    ensures Exact(ws[n]) <==> forall i :: 0 <= i < n ==> !Leaks(ws[i], ops[i])
  {
    hide Inv, Exact, Step, Initial;
    if n == 0 {
      InitialInv();
    } else {
      RunSafe(ws, ops, n - 1);
      StepKeeps(ws[n - 1], ops[n - 1]);
      assert ws[n - 1 + 1] == Step(ws[n - 1], ops[n - 1]);
    }
  }

  /** A slot handed out by open is one that nobody refers to, at any point of any run. */
  lemma RunOpensUnreferenced(ws: seq<World>, ops: seq<Op>, n: nat)
    requires IsRun(ws, ops) && n < |ops| && ops[n].OpOpen?
    requires Open(ws[n], ops[n].uid, ops[n].kind).code >= 0
    ensures var s := FirstUnused(ws[n].pool, 0);
      s < MAX_FILES && Holders(ws[n], s) == 0 && ws[n + 1].log == ws[n].log + [Opened(s)]
  {
    RunSafe(ws, ops, n);
    OpenKeeps(ws[n], ops[n].uid, ops[n].kind);
    assert ws[n + 1] == Step(ws[n], ops[n]);
  }

  // ---------------------------------------------------------------- what a good log says

  lemma {:induction false} PrefixLive(log: seq<Event>, n: nat)
    requires n <= |log| && Replay(log).Live?
    ensures Replay(log[..n]).Live?
    decreases |log|
  {
    if n < |log| {
      var front := log[..|log| - 1];
      assert front[..n] == log[..n];
      PrefixLive(front, n);
    } else {
      assert log[..n] == log;
    }
  }

  /** No close is ever tried while anyone else refers to the slot. */
  lemma NoCloseWhileShared(log: seq<Event>, i: nat)
    requires Replay(log).Live? && i < |log| && log[i].Closed?
    ensures log[i].others == 0
  {
  }

  /** A slot that is not open and is not opened stays closed. */
  lemma {:induction false} StaysClosed(log: seq<Event>, i: nat, j: nat, s: nat)
    requires i <= j <= |log| && Replay(log).Live? && Replay(log[..i]).Live? && s !in Replay(log[..i]).open
    requires forall k :: i <= k < j ==> log[k] != Opened(s)
    ensures Replay(log[..j]).Live? && s !in Replay(log[..j]).open
  {
    PrefixLive(log, j);
    if i < j {
      StaysClosed(log, i, j - 1, s);
      assert log[..j][..j - 1] == log[..j - 1];
    }
  }

  /** Between two successful closes of one slot it was opened again: once per acquisition. */
  lemma ClosedOncePerOpen(log: seq<Event>, i: nat, j: nat)
    requires Replay(log).Live? && i < j < |log|
    requires log[i].Closed? && log[i].done && log[j].Closed? && log[j].slot == log[i].slot
    ensures exists k :: i < k < j && log[k] == Opened(log[i].slot)
  {
    var s := log[i].slot;
    PrefixLive(log, i);
    PrefixLive(log, i + 1);
    assert log[..i + 1][..i] == log[..i];
    PrefixLive(log, j + 1);
    assert log[..j + 1][..j] == log[..j];
    if forall k :: i < k < j ==> log[k] != Opened(s) {
      StaysClosed(log, i + 1, j, s);
    }
  }

  /** In every interleaving no object is closed while anyone else refers to it. */
  lemma RunNoCloseWhileShared(ws: seq<World>, ops: seq<Op>, n: nat, i: nat)
    requires IsRun(ws, ops) && n <= |ops| && i < |ws[n].log| && ws[n].log[i].Closed?
    ensures ws[n].log[i].others == 0
  {
    hide Replay, Step;
    RunSafe(ws, ops, n);
    NoCloseWhileShared(ws[n].log, i);
  }

  /** In every interleaving a slot that was closed is closed again only after it was opened again. */
  lemma RunClosedOncePerOpen(ws: seq<World>, ops: seq<Op>, n: nat, i: nat, j: nat)
    requires IsRun(ws, ops) && n <= |ops| && i < j < |ws[n].log|
    requires ws[n].log[i].Closed? && ws[n].log[i].done && ws[n].log[j].Closed? && ws[n].log[j].slot == ws[n].log[i].slot
    ensures exists k :: i < k < j && ws[n].log[k] == Opened(ws[n].log[i].slot)
  {
    hide Replay, Step;
    RunSafe(ws, ops, n);
    ClosedOncePerOpen(ws[n].log, i, j);
  }

  // ---------------------------------------------------------------- what each step does and answers

  /** fd is the lowest empty descriptor from low on. */
  ghost predicate LowestEmpty(fds: seq<Entry>, low: int, fd: int) {
    && low <= fd < |fds| && 0 <= fd && fds[fd] == Empty
    && forall i :: 0 <= i && low <= i < fd ==> fds[i] != Empty
  }

  /** s is the lowest slot whose count is zero. */
  ghost predicate LowestUnused(pool: seq<Slot>, s: nat) {
    s < |pool| && pool[s].refs == 0 && forall i :: 0 <= i < s ==> pool[i].refs != 0
  }

  /** The complete effect of an open: the lowest free descriptor is answered and holds a slot that nobody had. */
  lemma OpenEffect(w: World, uid: int, kind: Kind)
    requires Inv(w)
    ensures
      var v := Open(w, uid, kind);
      && (v.code == -1 <==>
           || (forall fd :: 3 <= fd < MAX_FILES ==> w.fds[fd] != Empty)
           || (forall s :: 0 <= s < MAX_FILES ==> w.pool[s].refs != 0))
      && (v.code == -1 ==> v.world == w)
      && (v.code != -1 ==>
           && LowestEmpty(w.fds, 3, v.code)
           && exists s: nat :: LowestUnused(w.pool, s) && Holders(w, s) == 0 && v.world ==
                World(w.fds[v.code := To(s)], w.pool[s := Slot(uid, kind, 1)], w.grabs, w.log + [Opened(s)]))
  {
    hide FirstEmpty, FirstUnused, Refs, Replay, InUse, Covered, Exact;
    OpenKeeps(w, uid, kind);
    var fd, s := FirstEmpty(w.fds, 3), FirstUnused(w.pool, 0);
    if fd >= MAX_FILES {
      assert forall i :: 3 <= i < MAX_FILES ==> w.fds[i] != Empty;
    } else if s >= MAX_FILES {
      assert forall i :: 0 <= i < MAX_FILES ==> w.pool[i].refs != 0;
    } else {
      assert LowestUnused(w.pool, s) && LowestEmpty(w.fds, 3, fd);
    }
  }

  /** The complete effect of a dup: the lowest free descriptor from the minimum on is answered and shares fd's slot. */
  lemma DupEffect(w: World, fd: int, minfd: int)
    requires Inv(w)
    ensures
      var v, low := Dup(w, fd, minfd), if minfd < 3 then 3 else minfd;
      && (v.code == -1 <==> !ValidFd(w.fds, fd) || forall i :: low <= i < MAX_FILES ==> w.fds[i] != Empty)
      && (v.code == -1 ==> v.world == w)
      && (v.code != -1 ==>
           && LowestEmpty(w.fds, low, v.code)
           && var k := w.fds[fd].slot;
              v.world == w.(fds := w.fds[v.code := w.fds[fd]],
                            pool := w.pool[k := Slot(w.pool[k].uid, w.pool[k].kind, w.pool[k].refs + 1)]))
  {
  }

  /** The complete effect of a grab: it answers the slot of the descriptor and adds one reference to it. */
  lemma GrabEffect(w: World, fd: int)
    requires Inv(w)
    ensures
      var v := Grab(w, fd);
      && (v.code == -1 <==> !ValidFd(w.fds, fd))
      && (v.code == -1 ==> v.world == w)
      && (v.code != -1 ==>
           && 0 <= v.code < MAX_FILES && w.fds[fd] == To(v.code)
           && var p := w.pool[v.code];
              v.world == w.(pool := w.pool[v.code := Slot(p.uid, p.kind, p.refs + 1)],
                            grabs := w.grabs + multiset{v.code}))
  {
  }

  /** What a failed close is reported as, before its sign is turned. */
  function CloseError(kind: Kind, reply: CloseReply): int {
    if kind == Socket then reply.netErrno else reply.ret % 256
  }

  /** The pool after a drop from slot k: one count less, and the last one takes the slot unless its close fails. */
  function PoolAfterDrop(pool: seq<Slot>, k: nat, reply: CloseReply): seq<Slot>
    requires k < |pool|
  {
    var p := pool[k];
    if p.refs != 1 then pool[k := Slot(p.uid, p.kind, p.refs - 1)]
    else if CloseSucceeds(reply) then pool[k := ZEROED]
    else pool
  }

  /** The complete effect of dropping a grab. */
  lemma DropEffect(w: World, k: nat, reply: CloseReply)
    requires Inv(w) && k in w.grabs
    ensures
      var v, last := Drop(w, k, reply), w.pool[k].refs == 1;
      && v.code == (if last && !CloseSucceeds(reply) then -CloseError(w.pool[k].kind, reply) else 0)
      && v.world.log == w.log + (if last then [Closed(k, CloseSucceeds(reply), 0)] else [])
      && v.world.fds == w.fds && v.world.grabs == w.grabs - multiset{k}
      && v.world.pool == PoolAfterDrop(w.pool, k, reply)
  {
    assert w.pool[k].refs >= Holders(w, k);
    hide Refs, Replay, InUse;
    assert w.log + [] == w.log;
    assert w.pool[k := w.pool[k]] == w.pool;
  }

  /** Two descriptors on one slot keep its count above one. */
  lemma SharedCount(w: World, a: nat, b: nat)
    requires Inv(w) && a < MAX_FILES && b < MAX_FILES && a != b && w.fds[a].To? && w.fds[a] == w.fds[b]
    ensures w.pool[w.fds[a].slot].refs >= 2
  {
    var s := w.fds[a].slot;
    RefsUpdate(w.fds, a, Empty, s);
    RefsPositive(w.fds[a := Empty], b, s);
    assert w.pool[s].refs >= Holders(w, s);
  }

  /** The last close of slot k was tried and its error is reported. */
  predicate CloseReported(w: World, k: nat, reply: CloseReply)
    requires k < |w.pool|
  {
    w.pool[k].refs == 1 && !CloseSucceeds(reply) && CloseError(w.pool[k].kind, reply) > 0
  }

  /** The complete effect of a close. */
  lemma CloseEffect(w: World, fd: int, reply: CloseReply)
    requires Inv(w)
    ensures !ValidFd(w.fds, fd) ==> Close(w, fd, reply) == Answer(w, -1)
    ensures ValidFd(w.fds, fd) ==>
      var v, k := Close(w, fd, reply), w.fds[fd].slot;
      && v.code == (if CloseReported(w, k, reply) then -1 else 0)
      && v.world.fds == (if CloseReported(w, k, reply) then w.fds else w.fds[fd := Empty])
      && v.world.log == w.log + (if w.pool[k].refs == 1 then [Closed(k, CloseSucceeds(reply), 0)] else [])
      && v.world.grabs == w.grabs
      && v.world.pool == PoolAfterDrop(w.pool, k, reply)
  {
    if ValidFd(w.fds, fd) {
      var k := w.fds[fd].slot;
      RefsPositive(w.fds, fd, k);
      assert w.pool[k].refs >= Holders(w, k);
      hide Refs, Replay, InUse;
      assert w.log + [] == w.log;
      assert w.pool[k := w.pool[k]] == w.pool;
    }
  }

  /** What dup2 refuses, and what it leaves alone. */
  lemma Dup2Rejects(w: World, oldfd: int, newfd: int, reply: CloseReply)
    requires Inv(w)
    ensures !ValidFd(w.fds, oldfd) || !(0 <= newfd < MAX_FILES) ==> Dup2(w, oldfd, newfd, reply) == Answer(w, -1)
    ensures ValidFd(w.fds, oldfd) && oldfd == newfd ==> Dup2(w, oldfd, newfd, reply) == Answer(w, newfd)
  {
  }

  /** The complete effect of dup2 on two distinct descriptors, the old one being open. */
  lemma Dup2Effect(w: World, oldfd: int, newfd: int, reply: CloseReply)
    requires Inv(w) && ValidFd(w.fds, oldfd) && 0 <= newfd < MAX_FILES && oldfd != newfd
    ensures
      var v, s := Dup2(w, oldfd, newfd, reply), w.fds[oldfd].slot;
      var last := w.fds[newfd].To? && w.pool[w.fds[newfd].slot].refs == 1;
      && (v.code == -1 <==> w.fds[newfd].To? && CloseReported(w, w.fds[newfd].slot, reply))
      && (v.code == -1 ==> v.world.fds == w.fds && v.world.pool == w.pool)
      && (v.code != -1 ==> v.code == newfd && v.world.fds == w.fds[newfd := To(s)])
      && (v.code != -1 ==> v.world.pool == PoolAfterDup2(w, s, newfd, reply))
      && v.world.log == w.log + (if last then [Closed(w.fds[newfd].slot, CloseSucceeds(reply), 0)] else [])
      && (last ==> w.fds[newfd].slot != s)
      && v.world.grabs == w.grabs
  {
    var s := w.fds[oldfd].slot;
    CloseEffect(w, newfd, reply);
    if w.fds[newfd] == To(s) {
      SharedCount(w, oldfd, newfd);
    }
    hide Inv, DropCode, Refs;
    assert w.log + [] == w.log;
    assert w.fds[newfd := Empty][newfd := To(s)] == w.fds[newfd := To(s)];
    assert w.fds[newfd].Empty? ==> w.fds[newfd := Empty] == w.fds;
  }

  /** The pool after a dup2 that succeeds: one count less where newfd was and one more on slot s. */
  function PoolAfterDup2(w: World, s: nat, newfd: nat, reply: CloseReply): seq<Slot>
    requires s < |w.pool| && newfd < |w.fds| && (w.fds[newfd].To? ==> w.fds[newfd].slot < |w.pool|)
  {
    var more := Slot(w.pool[s].uid, w.pool[s].kind, w.pool[s].refs + 1);
    if w.fds[newfd] == To(s) then w.pool
    else if w.fds[newfd].Empty? then w.pool[s := more]
    else PoolAfterDrop(w.pool, w.fds[newfd].slot, reply)[s := more]
  }

  /** A failed close of the replaced descriptor leaves the table alone exactly when its error code is reported. */
  lemma Dup2FailedClose(w: World, oldfd: int, newfd: int, reply: CloseReply)
    requires Inv(w) && ValidFd(w.fds, oldfd) && ValidFd(w.fds, newfd) && oldfd != newfd
    requires w.pool[w.fds[newfd].slot].refs == 1 && !CloseSucceeds(reply)
    ensures
      var v := Dup2(w, oldfd, newfd, reply);
      (v.world.fds == w.fds && v.world.pool == w.pool && v.code == -1) <==>
        if w.pool[w.fds[newfd].slot].kind == Socket then reply.netErrno > 0 else reply.ret % 256 != 0
  {
  }

  /** A lost close: the descriptor goes, and its slot stays counted although nobody holds it. */
  lemma LostClose(w: World, fd: int, reply: CloseReply)
    requires Inv(w) && CloseLost(w, fd, reply)
    ensures
      var v, s := Close(w, fd, reply), w.fds[fd].slot;
      v.code == 0 && v.world.fds[fd] == Empty && v.world.pool[s].refs == 1 && Holders(v.world, s) == 0
  {
    var s := w.fds[fd].slot;
    RefsPositive(w.fds, fd, s);
    RefsUpdate(w.fds, fd, Empty, s);
    assert w.pool[s].refs >= Holders(w, s);
  }

  /** A kernel error whose low byte is zero, here 0x80010000, is taken for success. */
  lemma LostCloseWitness()
    ensures
      var w := Open(Initial(), 7, File).world;
      Inv(w) && CloseLost(w, 3, CloseReply(-0x7FFF_0000, 0))
  {
    InitialInv();
    OpenKeeps(Initial(), 7, File);
    hide Inv, Covered;
    assert FirstEmpty(Initial().fds, 3) == 3;
    FirstUnusedInitial();
  }

  lemma FirstUnusedInitial()
    ensures FirstUnused(Initial().pool, 0) == 3
  {
  }
}
