/**
 The memory manager: a fixed array of regions edited in place, a pool allocator and
 kernel reservations. Kernel calls are parameters; 32-bit wrap-around is written out.
 */
module MemoryManager {
  import opened Regions
  import opened Reservations

  /** What the kernel answers to a reserve-and-commit request. */
  datatype ReserveReply = ReserveReply(uid: int, base: nat, committed: bool)

  /** What the kernel answers when the pool block is allocated and its base is asked for. */
  datatype PoolReply = PoolReply(uid: int, base: nat)

  datatype Errno = Ok | Einval | Enomem | Enotsup

  /** Where the entries live: in kernel reservations with kubridge, inside the pool without it. */
  ghost predicate Backed(t: Table, kubridge: bool, vmUid: int, vmBase: nat) {
    (vmUid >= 0 ==> Aligned(vmBase) && 0 < vmBase && vmBase + POOL_SIZE < WORD)
    && forall i :: 0 <= i < |t| ==> InPlace(t[i], kubridge, vmUid, vmBase)
  }

  predicate InPlace(r: Region, kubridge: bool, vmUid: int, vmBase: nat) {
    if kubridge then r.uid >= 0
    else r.uid < 0 && vmUid >= 0 && vmBase <= r.addr && r.End() <= vmBase + POOL_SIZE
  }

  /** A successful reservation is page aligned, non-null and apart from every live one. */
  ghost predicate HonestReserve(log: seq<Event>, reply: ReserveReply, len: nat) {
    reply.uid >= 0 ==>
      && Aligned(reply.base) && 0 < reply.base && reply.base + len < WORD
      && Post(Replay(log), Reserved(reply.uid, Span(reply.base, len))).Live?
  }

  ghost predicate HonestPool(reply: PoolReply) {
    reply.uid >= 0 ==> Aligned(reply.base) && 0 < reply.base && reply.base + POOL_SIZE < WORD
  }

  /** Some pool address has room for len bytes. */
  ghost predicate Room(t: Table, base: nat, len: nat) {
    exists c :: base <= c && c + len <= base + POOL_SIZE && Fits(t, c, len)
  }

  /** Exactly when a mapping of n bytes can be recorded. */
  ghost predicate Mappable(t: Table, kubridge: bool, hint: nat, n: nat, reply: ReserveReply, poolUid: int,
                           poolBase: nat) {
    && n != 0 && |t| < MAX_REGIONS
    && if kubridge then reply.uid >= 0 && reply.committed
       else hint == 0 && poolUid >= 0 && Room(t, poolBase, n)
  }

  lemma FirstFitRoom(t: Table, vmBase: nat, len: nat, p: nat)
    requires FirstFit(t, vmBase, len, p)
    ensures p != 0 <==> Room(t, vmBase, len)
  {
  }

  lemma AccountsPooled(t: Table, log: seq<Event>, r: Region)
    requires Accounts(t, log) && r.uid < 0
    ensures Accounts(Inserted(t, r), log)
  {
    InsertedUids(t, r);
    var k, u := Slot(t, r.addr), Inserted(t, r);
    forall i | 0 <= i < |u| && u[i].uid >= 0 ensures Replay(log).spans[u[i].uid].Covers(u[i]) {
      var j := if i < k then i else i - 1;
      assert u[i] == t[j] && t[j].uid in Uids(t);
    }
  }

  /** A range apart from every live reservation meets no entry. */
  lemma ReservedFits(t: Table, log: seq<Event>, uid: int, span: Span)
    requires Accounts(t, log) && Post(Replay(log), Reserved(uid, span)).Live?
    requires forall i :: 0 <= i < |t| ==> t[i].uid >= 0
    ensures Fits(t, span.base, span.len)
  {
  }

  /** Recording a fresh reservation keeps every table invariant. */
  lemma ReservedInserted(t: Table, log: seq<Event>, r: Region)
    requires WellFormed(t) && Accounts(t, log) && ProperRegion(r)
    requires forall i :: 0 <= i < |t| ==> t[i].uid >= 0
    requires Post(Replay(log), Reserved(r.uid, Span(r.addr, r.len))).Live?
    ensures Fits(t, r.addr, r.len)
    ensures WellFormed(Inserted(t, r))
    ensures Accounts(Inserted(t, r), log + [Reserved(r.uid, Span(r.addr, r.len))])
    ensures GainedExactly(t, Inserted(t, r), r)
  {
    var span := Span(r.addr, r.len);
    ReservedFits(t, log, r.uid, span);
    ReplayAppend(log, Reserved(r.uid, span));
    InsertedWellFormed(t, r);
    AccountsInserted(t, log, r, span);
    InsertedGains(t, r);
  }

  /** Recording a pool range that meets no entry keeps every table invariant. */
  lemma PooledInserted(t: Table, log: seq<Event>, r: Region)
    requires WellFormed(t) && Accounts(t, log) && ProperRegion(r) && r.uid < 0 && Fits(t, r.addr, r.len)
    ensures WellFormed(Inserted(t, r)) && Accounts(Inserted(t, r), log) && GainedExactly(t, Inserted(t, r), r)
  {
    hide Accounts, Inserted;
    InsertedWellFormed(t, r);
    AccountsPooled(t, log, r);
    InsertedGains(t, r);
  }

  lemma AccountsSameLedger(t: Table, log: seq<Event>, log': seq<Event>)
    requires Accounts(t, log) && Replay(log) == Replay(log')
    ensures Accounts(t, log')
  {
  }

  lemma BackedInserted(t: Table, r: Region, kubridge: bool, vmUid: int, vmBase: nat)
    requires Backed(t, kubridge, vmUid, vmBase) && Backed([r], kubridge, vmUid, vmBase)
    ensures Backed(Inserted(t, r), kubridge, vmUid, vmBase)
  {
  }

  lemma AccountsSplit(t: Table, i: nat, s: nat, e: nat, log: seq<Event>)
    requires Ordered(t) && i < |t| && Splits(t[i], s, e) && Accounts(t, log)
    ensures Accounts(CutAll(t, s, e), log)
  {
    CutAllSplit(t, s, e, i);
    assert t == t[..i] + [t[i]] + t[i + 1..];
    CutPieces(t[i], s, e);
    AccountsReplaced(t[..i], t[i], Cut(t[i], s, e), t[i + 1..], log);
  }

  /** p is the lowest pool address with room for len bytes; 0 when no address has. */
  ghost predicate FirstFit(t: Table, vmBase: nat, len: nat, p: nat) {
    && (p != 0 ==> vmBase <= p && p + len <= vmBase + POOL_SIZE && Fits(t, p, len))
    && forall c :: vmBase <= c && c + len <= vmBase + POOL_SIZE && Fits(t, c, len) ==> 0 < p <= c
  }

  lemma BackedCut(t: Table, s: nat, e: nat, kubridge: bool, vmUid: int, vmBase: nat)
    requires Backed(t, kubridge, vmUid, vmBase)
    ensures Backed(CutAll(t, s, e), kubridge, vmUid, vmBase)
  {
    var u := CutAll(t, s, e);
    forall i | 0 <= i < |u| ensures InPlace(u[i], kubridge, vmUid, vmBase) {
      var j := CutAllPieces(t, s, e, i);
    }
  }

  /** A cut whose end has wrapped below its start leaves overlapping entries. */
  lemma WrappedCutOverlaps(t: Table, s: nat, e: nat)
    requires WellFormed(t) && e < s && !Free(t, s, e)
    ensures !Ordered(CutAll(t, s, e))
  {
    var k :| 0 <= k < |t| && Overlaps(t[k], s, e);
    CutAllSplit(t, s, e, k);
    var u := CutAll(t, s, e);
    assert u[k] == t[k].(len := s - t[k].addr);
    assert u[k + 1] == t[k].(addr := e, len := t[k].End() - e);
  }

  /** What an unmap leaves, with and without a wrapped end. */
  lemma UnmapOutcome(t: Table, s: nat, n: nat, kubridge: bool, vmUid: int, vmBase: nat)
    requires WellFormed(t) && Backed(t, kubridge, vmUid, vmBase)
    requires s < WORD && 0 < n < WORD && Aligned(n)
    ensures
      var e := (s + n) % WORD;
      var u := AfterUnmap(t, s, e);
      if Free(t, s, e) || (NeedsSplit(t, s, e) && |t| == MAX_REGIONS) then u == t
      else u != t && Backed(u, kubridge, vmUid, vmBase) && (WellFormed(u) <==> s + n < WORD && CutsWhole(t, s, s + n))
  {
    var e := (s + n) % WORD;
    if Free(t, s, e) {
      CutAllMiss(t, s, e);
    } else {
      CutOutcome(t, s, n, e, kubridge, vmUid, vmBase);
    }
  }

  lemma AlignedShift(s: nat, n: nat)
    requires Aligned(n)
    ensures Aligned(s) <==> Aligned(s + n)
  {
  }

  lemma CutOutcome(t: Table, s: nat, n: nat, e: nat, kubridge: bool, vmUid: int, vmBase: nat)
    requires WellFormed(t) && Backed(t, kubridge, vmUid, vmBase)
    requires s < WORD && 0 < n < WORD && Aligned(n)
    requires e == (s + n) % WORD && !Free(t, s, e)
    ensures CutAll(t, s, e) != t && Backed(CutAll(t, s, e), kubridge, vmUid, vmBase)
    ensures WellFormed(CutAll(t, s, e)) <==> s + n < WORD && CutsWhole(t, s, s + n)
  {
    hide CutAll, Backed, Free, CutsWhole;
    BackedCut(t, s, e, kubridge, vmUid, vmBase);
    if s + n < WORD {
      AlignedShift(s, n);
      assert e == s + n;
      if CutsWhole(t, s, e) {
        CutAllWellFormed(t, s, e);
      } else {
        CutAllUnaligned(t, s, e);
      }
      CutAllChanges(t, s, e);
    } else {
      assert e == s + n - WORD;
      WrappedCutOverlaps(t, s, e);
    }
  }

  /** Entry i takes memory from the pool and everything up to end behind it is free. */
  ghost predicate CanGrow(t: Table, i: nat, end: nat, vmBase: nat)
    requires i < |t|
  {
    t[i].uid < 0 && end <= vmBase + POOL_SIZE && Free(t, t[i].End(), end)
  }

  /** Some entry is exactly [addr, addr + o) and can take the length n where it is. */
  ghost predicate Resizable(t: Table, addr: nat, o: nat, n: nat, vmBase: nat) {
    exists i :: 0 <= i < |t| && t[i].addr == addr && t[i].len == o
      && (n <= o || CanGrow(t, i, (addr + n) % WORD, vmBase))
  }

  /** The bytes of [s, e) are now zero and every other byte is as before. */
  ghost predicate ZeroFilled(before: nat -> bv8, after: nat -> bv8, s: nat, e: nat) {
    forall a: nat :: after(a) == if s <= a < e then 0 else before(a)
  }

  lemma OnlyStart(t: Table, addr: nat, f: nat)
    requires WellFormed(t) && f < |t| && t[f].addr == addr
    ensures forall i :: 0 <= i < |t| && t[i].addr == addr ==> i == f
  {
  }

  lemma NotStarting(t: Table, addr: nat, len: nat, f: nat)
    requires WellFormed(t)
    requires f < |t| ==> t[f].Holds(addr) && !(t[f].addr == addr && t[f].len == len)
    requires f >= |t| ==> At(t, addr) == Unmapped
    ensures forall i :: 0 <= i < |t| ==> !(t[i].addr == addr && t[i].len == len)
  {
  }

  lemma GrownOutcome(t: Table, f: nat, n: nat, log: seq<Event>, kubridge: bool, vmUid: int, vmBase: nat)
    requires WellFormed(t) && Accounts(t, log) && Backed(t, kubridge, vmUid, vmBase) && f < |t| && t[f].uid < 0
    requires Aligned(n) && t[f].len < n < WORD
    requires (t[f].addr + n) % WORD <= vmBase + POOL_SIZE && Free(t, t[f].End(), (t[f].addr + n) % WORD)
    ensures Accounts(Resized(t, f, n), log)
    ensures WellFormed(Resized(t, f, n)) <==> t[f].addr + n < WORD
    ensures t[f].addr + n < WORD ==> Backed(Resized(t, f, n), kubridge, vmUid, vmBase)
  {
    ResizedWellFormed(t, f, n);
    var u := Resized(t, f, n);
    assert Uids(u) == Uids(t) by {
      assert forall i :: 0 <= i < |t| ==> u[i].uid == t[i].uid;
      UidsSame(t, u);
    }
  }

  lemma ShrunkOutcome(t: Table, f: nat, n: nat, kubridge: bool, vmUid: int, vmBase: nat)
    requires WellFormed(t) && Backed(t, kubridge, vmUid, vmBase) && f < |t| && Aligned(n) && n <= t[f].len
    ensures WellFormed(Resized(t, f, n)) <==> 0 < n
    ensures t[f].addr + n < WORD && PieceOf(t[f].(len := n), t[f])
    ensures Backed(Resized(t, f, n), kubridge, vmUid, vmBase)
  {
    assert ProperRegion(t[f]) && InPlace(t[f], kubridge, vmUid, vmBase);
    ResizedWellFormed(t, f, n);
  }

  lemma UidsSame(t: Table, u: Table)
    requires |t| == |u| && forall i :: 0 <= i < |t| ==> u[i].uid == t[i].uid
    ensures Uids(t) == Uids(u)
  {
  }

  lemma ProtectedAccounts(t: Table, s: nat, e: nat, prot: bv32, log: seq<Event>)
    requires Accounts(t, log)
    ensures Accounts(Protected(t, s, e, prot), log)
  {
    UidsSame(t, Protected(t, s, e, prot));
  }

  lemma ProtectedBacked(t: Table, s: nat, e: nat, prot: bv32, kubridge: bool, vmUid: int, vmBase: nat)
    requires Backed(t, kubridge, vmUid, vmBase)
    ensures Backed(Protected(t, s, e, prot), kubridge, vmUid, vmBase)
  {
  }

  lemma HopMapped(t: Table, k: nat, addr: nat, p: nat)
    requires Ordered(t) && k < |t| && t[k].Holds(p) && AllMapped(t, addr, p)
    ensures AllMapped(t, addr, t[k].End())
  {
    forall a: nat | addr <= a < t[k].End() ensures At(t, a) != Unmapped {
      if p <= a { AtIndex(t, a, k); }
    }
  }

  lemma ResizedIs(t: Table, k: nat, n: nat, u: Table)
    requires k < |t| == |u| && u[k] == t[k].(len := n) && forall i :: 0 <= i < |t| && i != k ==> u[i] == t[i]
    ensures u == Resized(t, k, n)
  {
  }

  lemma LedgerOf(t: Table, log: seq<Event>)
    requires Accounts(t, log)
    ensures Replay(log).Live? && Replay(log).spans.Keys == Uids(t) - Uids(t[..0])
  {
  }

  lemma EmptyAccounts(log: seq<Event>)
    requires Replay(log).Live? && Replay(log).spans.Keys == {}
    ensures Accounts([], log) && Replay(log) == Live(map[])
  {
  }

  lemma UidsStep(t: Table, i: nat)
    requires i < |t|
    ensures Uids(t[..i + 1]) == Uids(t[..i]) + (if t[i].uid >= 0 then {t[i].uid} else {})
    ensures t[i].uid >= 0 ==> t[i].uid in Uids(t)
  {
  }

  lemma SeenUid(t: Table, i: nat)
    requires i < |t| && t[i].uid >= 0
    ensures t[i].uid in Uids(t[..i]) <==> exists k :: 0 <= k < i && t[k].uid == t[i].uid
  {
  }

  class Manager {
    const regions: array<Region>
    const kubridge: bool
    var count: nat
    var ready: bool
    var vmUid: int
    var vmBase: nat
    var mem: nat -> bv8
    ghost var log: seq<Event>

    ghost predicate Shape()
      reads this
    {
      regions.Length == MAX_REGIONS && count <= MAX_REGIONS
    }

    ghost function Entries(): Table
      requires Shape()
      reads this, regions
    {
      regions[..count]
    }

    ghost predicate Valid()
      reads this, regions
    {
      && Shape()
      && WellFormed(Entries())
      && Accounts(Entries(), log)
      && Backed(Entries(), kubridge, vmUid, vmBase)
    }

    /** Whether a map call with these kernel answers will succeed. */
    ghost predicate CanMap(hint: nat, len: nat, reply: ReserveReply, pool: PoolReply)
      requires Shape()
      reads this, regions
    {
      ready && Mappable(Entries(), kubridge, hint, PageAlign(len), reply,
        if vmUid >= 0 then vmUid else pool.uid, if vmUid >= 0 then vmBase else pool.base)
    }

    constructor (haveKubridge: bool, image: nat -> bv8)
      ensures Valid() && ready && kubridge == haveKubridge && Entries() == [] && log == []
      ensures mem == image && fresh(regions)
    {
      regions := new Region[MAX_REGIONS](_ => Region(0, 0, -1, 0));
      kubridge, count, ready := haveKubridge, 0, true;
      vmUid, vmBase, mem, log := -1, 0, image, [];
      new;
    }

    /** The first entry holding addr, or count when there is none. */
    method Find(addr: nat) returns (k: nat)
      requires Valid()
      ensures k <= count
      ensures k < count ==> regions[k].Holds(addr)
      ensures k < count <==> At(Entries(), addr) != Unmapped
      ensures k < count ==> At(Entries(), addr) == Mapped(regions[k].uid, regions[k].prot)
    {
      k := 0;
      while k < count && !(addr >= regions[k].addr && addr < regions[k].addr + regions[k].len)
        invariant k <= count
        invariant forall i :: 0 <= i < k ==> !regions[i].Holds(addr)
      {
        k := k + 1;
      }
      if k < count {
        AtIndex(Entries(), addr, k);
      } else {
        AtNowhere(Entries(), addr);
      }
    }

    method Insert(r: Region) returns (ok: bool)
      requires Shape()
      modifies this`count, regions
      ensures Shape()
      ensures ok <==> old(count) < MAX_REGIONS
      ensures Entries() == if ok then Inserted(old(Entries()), r) else old(Entries())
    {
      hide Inserted, Slot;
      if count >= MAX_REGIONS {
        return false;
      }
      ghost var t := Entries();
      var i := count - 1;
      while i >= 0 && regions[i].addr > r.addr
        invariant count == old(count) && -1 <= i < count
        invariant forall k :: 0 <= k <= i ==> regions[k] == t[k]
        invariant forall k {:trigger regions[k]} :: i + 2 <= k <= count ==> regions[k] == t[k - 1]
        invariant forall k :: i + 1 <= k < count ==> r.addr < t[k].addr
      {
        regions[i + 1] := regions[i];
        i := i - 1;
      }
      regions[i + 1] := r;
      count := count + 1;
      InsertedIs(t, r, i + 1, Entries());
      return true;
    }

    method Remove(i: nat)
      requires Shape() && i < count
      modifies this`count, regions
      ensures Shape()
      ensures Entries() == old(Entries())[..i] + old(Entries())[i + 1..]
    {
      forall k | i <= k < count - 1 { regions[k] := regions[k + 1]; }
      count := count - 1;
    }

    method Release(uid: int)
      requires Shape()
      modifies this`log
      ensures log == if uid >= 0 && uid !in Uids(Entries()) then old(log) + [Freed(uid)] else old(log)
    {
      if uid < 0 {
        return;
      }
      for i := 0 to count
        invariant log == old(log)
        invariant forall k :: 0 <= k < i ==> regions[k].uid != uid
      {
        if regions[i].uid == uid {
          assert Entries()[i].uid in Uids(Entries());
          return;
        }
      }
      log := log + [Freed(uid)];
    }

    method PoolInit(reply: PoolReply) returns (ok: bool)
      requires Valid() && !kubridge && HonestPool(reply)
      modifies this`vmUid, this`vmBase
      ensures Valid()
      ensures ok <==> vmUid >= 0
      ensures ok == (old(vmUid) >= 0 || reply.uid >= 0)
      ensures ok ==> vmBase == (if old(vmUid) >= 0 then old(vmBase) else reply.base)
      ensures ok ==> vmUid == (if old(vmUid) >= 0 then old(vmUid) else reply.uid)
      ensures !ok ==> vmUid == old(vmUid) && vmBase == old(vmBase)
    {
      if vmUid >= 0 {
        return true;
      }
      if reply.uid < 0 {
        return false;
      }
      vmUid, vmBase := reply.uid, reply.base;
      return true;
    }

    /**
     Exact first fit: the lowest pool address where len bytes meet no entry, 0 only if there is none.
     Without kubridge no entry belongs to a reservation, so none is skipped. The candidate's end may wrap.
     */
    method PoolAlloc(len: nat) returns (p: nat)
      requires Valid() && !kubridge && vmUid >= 0 && 0 < len < WORD && Aligned(len)
      ensures Aligned(p)
      ensures FirstFit(Entries(), vmBase, len, p)
    {
      ghost var t := Entries();
      var cand := vmBase;
      var end := vmBase + POOL_SIZE;
      var i := 0;
      while i < count
        invariant i <= count
        invariant vmBase <= cand <= end && Aligned(cand)
        invariant forall k :: 0 <= k < i ==> regions[k].End() <= cand
        invariant forall c :: vmBase <= c < cand ==> !Fits(t, c, len)
      {
        assert t[i] == regions[i];
        var start := regions[i].addr;
        if start >= (cand + len) % WORD {
          break;
        }
        var after := start + regions[i].len;
        if after > cand {
          forall c | cand <= c < after && vmBase <= c ensures !Fits(t, c, len) {
            StartBelow(start, cand, len);
            assert Overlaps(t[i], c, c + len);
          }
          AlignedSum(start, regions[i].len);
          cand := after;
        }
        i := i + 1;
      }
      if cand > end || end - cand < len {
        return 0;
      }
      forall k | 0 <= k < |t| ensures !Overlaps(t[k], cand, cand + len) {
        assert t[k] == regions[k];
        if k >= i {
          assert t[i].addr <= t[k].addr;
        }
      }
      return cand;
    }

    static lemma StartBelow(start: nat, cand: nat, len: nat)
      requires start < (cand + len) % WORD
      ensures start < cand + len
    {
    }

    /** The kubridge half of a mapping: reserve, commit, record; a later failure gives the reservation back. */
    method MapReserved(n: nat, prot: bv32, reply: ReserveReply) returns (ok: bool)
      requires Valid() && kubridge && 0 < n && Aligned(n) && reply.uid >= 0
      requires HonestReserve(log, reply, n)
      modifies this`count, this`log, regions
      ensures Valid()
      ensures ok <==> reply.committed && old(count) < MAX_REGIONS
      ensures !ok ==> Entries() == old(Entries()) && Replay(log) == Replay(old(log))
      ensures ok ==> Fits(old(Entries()), reply.base, n) && ProperRegion(Region(reply.base, n, reply.uid, prot))
      ensures ok ==> Entries() == Inserted(old(Entries()), Region(reply.base, n, reply.uid, prot))
      ensures ok ==> GainedExactly(old(Entries()), Entries(), Region(reply.base, n, reply.uid, prot))
    {
      hide Inserted, Accounts, WellFormed, GainedExactly, Fits, Replay;
      ghost var t, before := Entries(), log;
      var r := Region(reply.base, n, reply.uid, prot);
      log := log + [Reserved(reply.uid, Span(reply.base, n))];
      ReplayAppend(before, Reserved(reply.uid, Span(reply.base, n)));
      ReserveThenFree(before, reply.uid, Span(reply.base, n));
      ReservedInserted(t, before, r);
      BackedInserted(t, r, kubridge, vmUid, vmBase);
      if !reply.committed {
        log := log + [Freed(reply.uid)];
        AccountsSameLedger(t, before, log);
        return false;
      }
      ok := Insert(r);
      if !ok {
        log := log + [Freed(reply.uid)];
        AccountsSameLedger(t, before, log);
      }
    }

    /** The pool half of a mapping: the result is the first fit, or 0. */
    method MapPooled(n: nat, prot: bv32, pool: PoolReply) returns (p: nat)
      requires Valid() && !kubridge && 0 < n < WORD && Aligned(n) && HonestPool(pool)
      modifies this`count, this`vmUid, this`vmBase, regions
      ensures Valid()
      ensures p == 0 ==> Entries() == old(Entries())
      ensures p != 0 ==> old(count) < MAX_REGIONS && Fits(old(Entries()), p, n) && ProperRegion(Region(p, n, -1, prot))
      ensures p != 0 ==> Entries() == Inserted(old(Entries()), Region(p, n, -1, prot))
      ensures p != 0 ==> GainedExactly(old(Entries()), Entries(), Region(p, n, -1, prot))
      ensures vmUid >= 0 <==> old(vmUid) >= 0 || pool.uid >= 0
      ensures vmUid >= 0 ==> vmBase == if old(vmUid) >= 0 then old(vmBase) else pool.base
      ensures vmUid < 0 || old(count) == MAX_REGIONS ==> p == 0
      ensures vmUid >= 0 && old(count) < MAX_REGIONS ==> FirstFit(old(Entries()), vmBase, n, p)
    {
      hide Inserted, Accounts, WellFormed, GainedExactly, Fits;
      ghost var t := Entries();
      var started := PoolInit(pool);
      if !started {
        return 0;
      }
      p := PoolAlloc(n);
      if p == 0 {
        return;
      }
      var r := Region(p, n, -1, prot);
      var ok := Insert(r);
      if !ok {
        return 0;
      }
      PooledInserted(t, log, r);
      BackedInserted(t, r, kubridge, vmUid, vmBase);
    }

    /** Record a new mapping. A non-zero result is its start. */
    method Map(hint: nat, len: nat, prot: bv32, reply: ReserveReply, pool: PoolReply)
      returns (ret: nat, err: Errno)
      requires Valid() && len < WORD
      requires HonestReserve(log, reply, PageAlign(len)) && HonestPool(pool)
      modifies this`count, this`log, this`vmUid, this`vmBase, regions
      ensures Valid()
      ensures ret == 0 <==> err != Ok
      ensures ret != 0 <==> old(CanMap(hint, len, reply, pool))
      ensures err == Einval <==> PageAlign(len) == 0
      ensures err == Enotsup <==> PageAlign(len) != 0 && ready && hint != 0 && !kubridge
      ensures ret == 0 ==> Entries() == old(Entries())
      ensures ret != 0 ==>
        var r := Region(ret, PageAlign(len), if kubridge then reply.uid else -1, prot);
        && ready && old(count) < MAX_REGIONS && ProperRegion(r) && Fits(old(Entries()), ret, r.len)
        && Entries() == Inserted(old(Entries()), r)
        && GainedExactly(old(Entries()), Entries(), r)
      ensures kubridge && ready && PageAlign(len) != 0 ==>
        ret == if reply.uid >= 0 && reply.committed && old(count) < MAX_REGIONS then reply.base else 0
      ensures err != Enotsup && !kubridge && ready && PageAlign(len) != 0 && vmUid >= 0 && old(count) < MAX_REGIONS ==>
        FirstFit(old(Entries()), vmBase, PageAlign(len), ret)
    {
      hide Inserted, Accounts, WellFormed, GainedExactly, Fits, FirstFit, PageAlign, Backed, Room;
      var n := PageAlign(len);
      if n == 0 {
        return 0, Einval;
      }
      if !ready {
        return 0, Enomem;
      }
      if hint != 0 && !kubridge {
        return 0, Enotsup;
      }
      if kubridge {
        if reply.uid < 0 {
          return 0, Enomem;
        }
        var ok := MapReserved(n, prot, reply);
        ret, err := if ok then reply.base else 0, if ok then Ok else Enomem;
      } else {
        ret := MapPooled(n, prot, pool);
        if vmUid >= 0 && old(count) < MAX_REGIONS {
          FirstFitRoom(old(Entries()), vmBase, n, ret);
        }
        err := if ret == 0 then Enomem else Ok;
      }
    }

    method DropEntry(i: nat)
      requires Shape() && i < count && Accounts(Entries(), log)
      modifies this`count, this`log, regions
      ensures Shape() && Accounts(Entries(), log) && old(log) <= log
      ensures Entries() == old(Entries())[..i] + old(Entries())[i + 1..]
    {
      hide Accounts, Uids;
      ghost var t := Entries();
      ghost var a, r, b := t[..i], t[i], t[i + 1..];
      assert t == a + [r] + b;
      var uid := regions[i].uid;
      Remove(i);
      Release(uid);
      if uid >= 0 && uid !in Uids(a + b) {
        AccountsRemoved(a, r, b, old(log));
      } else {
        AccountsReplaced(a, r, [], b, old(log));
        assert a + [] + b == a + b;
      }
    }

    method TrimEntry(i: nat, r: Region)
      requires Shape() && i < count && Accounts(Entries(), log) && PieceOf(r, regions[i])
      modifies regions
      ensures Entries() == old(Entries())[i := r]
      ensures Accounts(Entries(), log)
    {
      hide Accounts, PieceOf;
      ghost var t := Entries();
      ghost var a, b := t[..i], t[i + 1..];
      assert t == a + [t[i]] + b;
      regions[i] := r;
      assert Entries() == t[i := r] == a + [r] + b;
      AccountsReplaced(a, t[i], [r], b, log);
    }

    method SplitEntry(i: nat, s: nat, e: nat) returns (ok: bool)
      requires Shape() && i < count && Ordered(Entries()) && Splits(regions[i], s, e)
      modifies this`count, regions
      ensures Shape()
      ensures ok <==> old(count) < MAX_REGIONS
      ensures Entries() == if ok then CutAll(old(Entries()), s, e) else old(Entries())
    {
      hide CutAll, Inserted, Ordered;
      ghost var t := Entries();
      var r := regions[i];
      var left, right := r.(len := s - r.addr), r.(addr := e, len := r.End() - e);
      regions[i] := left;
      assert Entries() == t[i := left];
      ok := Insert(right);
      if ok {
        SplitInserted(t, i, s, e);
      } else {
        regions[i] := r;
        assert Entries() == t[i := left][i := r] == t;
      }
    }

    /** One entry of the unmap loop: cut entry i, which holds r, down to what lies outside [s, e). */
    method CutEntry(i: nat, s: nat, e: nat) returns (kept: nat)
      requires Shape() && i < count && Accounts(Entries(), log)
      requires Overlaps(regions[i], s, e) && !Splits(regions[i], s, e)
      modifies this`count, this`log, regions
      ensures Shape() && Accounts(Entries(), log) && old(log) <= log
      ensures Entries() == old(Entries())[..i] + Cut(old(regions[i]), s, e) + old(Entries())[i + 1..]
      ensures kept == |Cut(old(regions[i]), s, e)|
    {
      hide Accounts;
      ghost var t := Entries();
      var rs := regions[i].addr;
      var re := rs + regions[i].len;
      var us := if s > rs then s else rs;
      var ue := if e < re then e else re;
      if us == rs && ue == re {
        DropEntry(i);
        kept := 0;
        assert Cut(t[i], s, e) == [];
      } else if us == rs {
        TrimEntry(i, regions[i].(addr := ue, len := re - ue));
        kept := 1;
        assert Cut(t[i], s, e) == [t[i].(addr := ue, len := re - ue)];
      } else {
        TrimEntry(i, regions[i].(len := us - rs));
        kept := 1;
        assert Cut(t[i], s, e) == [t[i].(len := us - rs)];
      }
    }

    /**
     Remove [addr, addr + len) from the table. The table becomes the cut table, except that a split
     on a full table is given up; the result is 0 exactly when something was removed.
     */
    method Unmap(addr: nat, len: nat) returns (ret: int)
      requires Valid() && addr < WORD && len < WORD
      modifies this`count, this`log, regions
      ensures Shape() && Accounts(Entries(), log) && old(log) <= log
      ensures ret == 0 || ret == -1
      ensures PageAlign(len) == 0 || !ready ==> ret == -1 && Entries() == old(Entries())
      ensures PageAlign(len) != 0 && ready ==>
        Entries() == AfterUnmap(old(Entries()), addr, (addr + PageAlign(len)) % WORD)
      ensures ret == -1 ==> Entries() == old(Entries())
      ensures ret == 0 ==> Entries() != old(Entries())
      ensures PageAlign(len) != 0 && ready ==>
        var e := (addr + PageAlign(len)) % WORD;
        (ret == 0 <==>
          !Free(old(Entries()), addr, e) && !(NeedsSplit(old(Entries()), addr, e) && old(count) == MAX_REGIONS))
      ensures Valid() <==>
        ret == -1 || (addr + PageAlign(len) < WORD && CutsWhole(old(Entries()), addr, addr + PageAlign(len)))
    {
      hide PageAlign, AfterUnmap, Accounts, WellFormed, Backed, Free, NeedsSplit, CutsWhole;
      var n := PageAlign(len);
      if n == 0 || !ready {
        return -1;
      }
      var s, e := addr, (addr + n) % WORD;
      ret := UnmapRange(s, e);
      UnmapOutcome(old(Entries()), s, n, kubridge, vmUid, vmBase);
    }

    /** One round of the unmap loop at entry i, which is entry j of the table t that the loop started from. */
    method UnmapStep(i: nat, s: nat, e: nat, ghost t: Table, ghost j: nat)
      returns (next: nat, removed: bool, stop: bool)
      requires Shape() && Accounts(Entries(), log) && i < count
      requires WellFormed(t) && CutSoFar(t, s, e, j, i, Entries())
      modifies this`count, this`log, regions
      ensures Shape() && Accounts(Entries(), log) && old(log) <= log && j < |t|
      ensures stop <==> Splits(t[j], s, e)
      ensures !stop ==> CutSoFar(t, s, e, j + 1, next, Entries()) && (removed <==> Overlaps(t[j], s, e))
      ensures stop ==> Entries() == AfterUnmap(t, s, e) && (removed <==> |t| < MAX_REGIONS) && NeedsSplit(t, s, e)
      ensures stop ==> Free(t[..j], s, e) && !Free(t, s, e)
    {
      hide CutSoFar, CutAll, Accounts, Ordered, Free, NeedsSplit;
      ghost var u := Entries();
      CutSoFarAt(t, s, e, j, i, u);
      next, removed, stop := i, false, false;
      if regions[i].End() <= s || regions[i].addr >= e {
        assert u == u[..i] + Cut(t[j], s, e) + u[i + 1..];
        CutSoFarNext(t, s, e, j, i, u, u);
        next := i + 1;
      } else if Splits(regions[i], s, e) {
        CutSoFarSplit(t, s, e, j, i, u);
        AccountsSplit(t, j, s, e, log);
        removed := SplitEntry(i, s, e);
        stop := true;
      } else {
        var kept := CutEntry(i, s, e);
        CutSoFarNext(t, s, e, j, i, u, Entries());
        next, removed := i + kept, true;
      }
    }

    /** The unmap loop: i advances only over entries that stay, and a split ends it. */
    method UnmapRange(s: nat, e: nat) returns (ret: int)
      requires Shape() && WellFormed(Entries()) && Accounts(Entries(), log)
      modifies this`count, this`log, regions
      ensures Shape() && Accounts(Entries(), log) && old(log) <= log
      ensures Entries() == AfterUnmap(old(Entries()), s, e)
      ensures ret == if Free(old(Entries()), s, e) || (NeedsSplit(old(Entries()), s, e) && old(count) == MAX_REGIONS)
        then -1 else 0
    {
      hide CutSoFar, AfterUnmap, Accounts, WellFormed, Free, NeedsSplit;
      ghost var t, j: nat := Entries(), 0;
      var i: nat := 0;
      ret := -1;
      CutSoFarStart(t, s, e);
      while i < count
        invariant Shape() && Accounts(Entries(), log) && old(log) <= log
        invariant j <= |t| && CutSoFar(t, s, e, j, i, Entries())
        invariant ret == if Free(t[..j], s, e) then -1 else 0
        decreases |t| - j
      {
        var removed, stop;
        i, removed, stop := UnmapStep(i, s, e, t, j);
        if removed {
          ret := 0;
        }
        if stop {
          return;
        }
        FreeStep(t, s, e, j);
        j := j + 1;
      }
      CutSoFarAt(t, s, e, j, i, Entries());
    }

    /** The protection recorded at addr; all ones (minus one) when nothing is mapped there. */
    method ProtOf(addr: nat) returns (prot: bv32)
      requires Valid()
      ensures prot == if ready && At(Entries(), addr) != Unmapped then At(Entries(), addr).prot else 0xFFFF_FFFF
    {
      prot := 0xFFFF_FFFF;
      if !ready {
        return;
      }
      var k := Find(addr);
      if k < count {
        prot := regions[k].prot;
      }
    }

    /** Grow pool entry f to n bytes when the bytes behind it are free; they are zeroed. */
    method GrowEntry(f: nat, n: nat) returns (ok: bool)
      requires Valid() && f < count && regions[f].uid < 0 && Aligned(n) && regions[f].len < n < WORD
      modifies this`mem, regions
      ensures Shape() && Accounts(Entries(), log)
      ensures ok <==> CanGrow(old(Entries()), f, (old(regions[f].addr) + n) % WORD, vmBase)
      ensures !ok ==> Entries() == old(Entries()) && mem == old(mem)
      ensures ok ==> Entries() == Resized(old(Entries()), f, n)
      ensures Valid() <==> !ok || old(regions[f].addr) + n < WORD
      ensures ok && old(regions[f].addr) + n < WORD ==>
        ZeroFilled(old(mem), mem, old(regions[f].End()), old(regions[f].addr) + n)
    {
      hide Accounts, WellFormed, Backed, Resized;
      ghost var t := Entries();
      var growS, growE := regions[f].End(), (regions[f].addr + n) % WORD;
      if growE > vmBase + POOL_SIZE {
        return false;
      }
      for i := 0 to count
        invariant forall j :: 0 <= j < i ==> !Overlaps(t[j], growS, growE)
      {
        if i != f && regions[i].addr < growE && regions[i].End() > growS {
          assert Overlaps(t[i], growS, growE);
          return false;
        }
      }
      GrownOutcome(t, f, n, log, kubridge, vmUid, vmBase);
      var before := mem;
      mem := (a: nat) => if growS <= a < growS + (growE - growS) % WORD then 0 else before(a);
      regions[f] := regions[f].(len := n);
      ResizedIs(t, f, n, Entries());
      return true;
    }

    method ResizePages(addr: nat, o: nat, n: nat) returns (ret: int, ghost k: nat)
      requires Valid() && Aligned(n) && n < WORD
      modifies this`mem, regions
      ensures Shape() && Accounts(Entries(), log)
      ensures ret == 0 || ret == -1
      ensures ret == -1 ==> Entries() == old(Entries()) && mem == old(mem)
      ensures ret == 0 ==>
        && k < old(count) && old(Entries())[k].addr == addr && old(Entries())[k].len == o
        && Entries() == Resized(old(Entries()), k, n)
      ensures ret == 0 <==> Resizable(old(Entries()), addr, o, n, vmBase)
      ensures Valid() <==> ret == -1 || (n > 0 && addr + n < WORD)
      ensures ret == 0 && addr + n < WORD ==> ZeroFilled(old(mem), mem, addr + o, addr + n)
    {
      hide Accounts, WellFormed, Backed, Free;
      ghost var t := Entries();
      var f := Find(addr);
      k := f;
      if f == count || regions[f].addr != addr || regions[f].len != o {
        NotStarting(t, addr, o, f);
        return -1, k;
      }
      OnlyStart(t, addr, f);
      assert Resizable(t, addr, o, n, vmBase) <==> n <= o || CanGrow(t, f, (addr + n) % WORD, vmBase);
      if n <= o {
        ShrunkOutcome(t, f, n, kubridge, vmUid, vmBase);
        TrimEntry(f, regions[f].(len := n));
        ret := 0;
      } else if regions[f].uid >= 0 {
        ret := -1;
      } else {
        var ok := GrowEntry(f, n);
        ret := if ok then 0 else -1;
      }
    }

    /**
     Change the length of the mapping that starts at addr and is oldLen long, in place. Shrinking
     always succeeds; growing needs pool memory with free room behind it. The table stays valid
     exactly when the call fails or the new length neither rounds to zero nor runs past the top.
     */
    method Resize(addr: nat, oldLen: nat, newLen: nat) returns (ret: int, ghost k: nat)
      requires Valid() && addr < WORD && oldLen < WORD && newLen < WORD
      modifies this`mem, regions
      ensures Shape() && Accounts(Entries(), log)
      ensures ret == 0 || ret == -1
      ensures ret == -1 ==> Entries() == old(Entries()) && mem == old(mem)
      ensures ret == 0 ==>
        && k < old(count) && old(Entries())[k].addr == addr && old(Entries())[k].len == PageAlign(oldLen)
        && Entries() == Resized(old(Entries()), k, PageAlign(newLen))
      ensures ret == 0 <==> ready && Resizable(old(Entries()), addr, PageAlign(oldLen), PageAlign(newLen), vmBase)
      ensures Valid() <==> ret == -1 || (PageAlign(newLen) > 0 && addr + PageAlign(newLen) < WORD)
      ensures ret == 0 && addr + PageAlign(newLen) < WORD ==>
        ZeroFilled(old(mem), mem, addr + PageAlign(oldLen), addr + PageAlign(newLen))
    {
      if !ready {
        return -1, 0;
      }
      ret, k := ResizePages(addr, PageAlign(oldLen), PageAlign(newLen));
    }

    /** Record prot on the entries lying wholly in the range; the result is the kernel's. */
    method Protect(addr: nat, len: nat, prot: bv32, reply: int) returns (ret: int)
      requires Valid() && addr < WORD && len < WORD
      modifies regions
      ensures Valid()
      ensures Entries() ==
        if ready then Protected(old(Entries()), addr, (addr + PageAlign(len)) % WORD, prot) else old(Entries())
      ensures ready ==>
        (PerPage(old(Entries()), Entries(), addr, addr + PageAlign(len), prot) <==>
          Trackable(old(Entries()), addr, PageAlign(len), prot))
      ensures ret == if !ready then -1 else if kubridge then reply else 0
    {
      hide PerPage, Trackable, PageAlign, Accounts, Backed, WellFormed;
      if !ready {
        return -1;
      }
      ghost var t := Entries();
      var s, e := addr, (addr + PageAlign(len)) % WORD;
      for i := 0 to count
        invariant forall k :: 0 <= k < i ==> regions[k] == Protected(t, s, e, prot)[k]
        invariant forall k :: i <= k < count ==> regions[k] == t[k]
      {
        if regions[i].addr >= s && regions[i].addr + regions[i].len <= e {
          regions[i] := regions[i].(prot := prot);
        }
      }
      assert Entries() == Protected(t, s, e, prot);
      ProtectedPerPage(t, s, PageAlign(len), prot);
      ProtectedOrdered(t, s, e, prot);
      ProtectedAccounts(t, s, e, prot, log);
      ProtectedBacked(t, s, e, prot, kubridge, vmUid, vmBase);
      return if kubridge then reply else 0;
    }

    /** Hop from entry to entry: 1 exactly when every address up to the (wrapped) page end is mapped. */
    method MappedRange(addr: nat, len: nat) returns (ret: int)
      requires Valid() && addr < WORD && len < WORD
      ensures ret == if ready && AllMapped(Entries(), addr, PageAlign((addr + len) % WORD)) then 1 else 0
    {
      if !ready {
        return 0;
      }
      var p, e := addr, PageAlign((addr + len) % WORD);
      while p < e
        invariant addr <= p && AllMapped(Entries(), addr, p)
      {
        var k := Find(p);
        if k == count {
          return 0;
        }
        HopMapped(Entries(), k, addr, p);
        p := regions[k].addr + regions[k].len;
      }
      return 1;
    }

    method SeenBefore(i: nat) returns (seen: bool)
      requires Shape() && i < count && regions[i].uid >= 0
      ensures seen <==> regions[i].uid in Uids(Entries()[..i])
    {
      seen := false;
      var j := 0;
      while j < i && !seen
        invariant j <= i
        invariant seen <==> exists k :: 0 <= k < j && regions[k].uid == regions[i].uid
      {
        seen := regions[j].uid == regions[i].uid;
        j := j + 1;
      }
      SeenUid(Entries(), i);
    }

    /** Tear everything down: every live reservation is freed, each exactly once. */
    method Fini()
      requires Valid()
      modifies this`count, this`ready, this`vmUid, this`log
      ensures Valid() && !ready && old(log) <= log
      ensures old(ready) ==> Entries() == [] && Replay(log) == Live(map[]) && vmUid < 0
      ensures !old(ready) ==> log == old(log) && Entries() == old(Entries())
    {
      hide Accounts, Replay, Uids;
      if !ready {
        return;
      }
      ghost var t := Entries();
      LedgerOf(t, log);
      for i := 0 to count
        invariant count == old(count) && old(log) <= log && Entries() == t
        invariant Replay(log).Live? && Replay(log).spans.Keys == Uids(t) - Uids(t[..i])
      {
        UidsStep(t, i);
        if regions[i].uid < 0 {
          continue;
        }
        var seen := SeenBefore(i);
        if !seen {
          ReplayAppend(log, Freed(regions[i].uid));
          log := log + [Freed(regions[i].uid)];
        }
      }
      assert t[..|t|] == t;
      count := 0;
      if vmUid >= 0 {
        vmUid := -1;
      }
      ready := false;
      EmptyAccounts(log);
    }
  }
}
