/**
 mmap, mremap and munmap on top of the memory manager. File reads and kernel calls are
 parameters; memory is a function from addresses to bytes.
 */
module Mapping {
  import opened Basics
  import opened Regions
  import opened Reservations
  import opened MemoryManager

  const PROT_WRITE: bv32 := 2
  const MAP_SHARED: bv32 := 0x01
  const MAP_PRIVATE: bv32 := 0x02
  const MAP_FIXED: bv32 := 0x10
  const MAP_ANONYMOUS: bv32 := 0x20
  const MREMAP_MAYMOVE: bv32 := 1
  const MREMAP_FIXED: bv32 := 2

  datatype Failure = EINVAL | EBADF | ENOTSUP | ENOMEM | EFAULT | EREAD

  datatype Outcome = Failed(error: Failure) | Mapping(base: nat)

  type Image = nat -> bv8

  function Patch(mem: Image, at: nat, data: seq<bv8>): Image {
    (a: nat) => if at <= a < at + |data| then data[a - at] else mem(a)
  }

  function Zeros(n: nat): seq<bv8> {
    seq(n, _ => 0)
  }

  function ToFailure(err: Errno): Failure {
    match err
    case Einval => EINVAL
    case Enotsup => ENOTSUP
    case Ok => ENOMEM
    case Enomem => ENOMEM
  }

  /** Every byte outside [s, s + n) is as before. */
  ghost predicate OnlyTouches(before: Image, after: Image, s: nat, n: nat) {
    forall a: nat :: !(s <= a < s + n) ==> after(a) == before(a)
  }

  /**
   What the reads of a file may answer: an error, end of file exactly at or past the end, or a
   positive count of bytes that are there. The offset grows with every read, so one function of
   offset and size stands for any sequence of short reads.
   */
  ghost predicate HonestReads(file: seq<bv8>, read: (nat, nat) -> int) {
    forall o: nat, n: nat :: n > 0 ==>
      && read(o, n) <= n
      && (o < |file| ==> read(o, n) != 0 && read(o, n) <= |file| - o)
      && (o >= |file| ==> read(o, n) <= 0)
  }

  /** Byte k of a mapping of len bytes of the file from off on; zero past the end of either. */
  function FileByte(file: seq<bv8>, off: nat, len: nat, k: nat): bv8 {
    if k < len && off + k < |file| then file[off + k] else 0
  }

  ghost predicate HoldsFile(mem: Image, base: nat, n: nat, file: seq<bv8>, off: nat, len: nat) {
    forall a: nat :: base <= a < base + n ==> mem(a) == FileByte(file, off, len, a - base)
  }

  /** The reads that follow one another from done on reach the length or the end of file without an error. */
  function ReadsSucceed(read: (nat, nat) -> int, off: nat, len: nat, done: nat): bool
    requires done <= len
    decreases len - done
  {
    done == len ||
    var got := read(off + done, len - done);
    got == 0 || (0 < got <= len - done && ReadsSucceed(read, off, len, done + got))
  }

  /** What n bytes at base hold while the first done of them have been read. */
  ghost predicate Filling(before: Image, mem: Image, base: nat, n: nat, done: nat, file: seq<bv8>, off: nat, len: nat) {
    && done <= len <= n && (done > 0 ==> off + done <= |file|)
    && OnlyTouches(before, mem, base, n) && HoldsFile(mem, base, done, file, off, len)
  }

  lemma FillingRead(before: Image, mem: Image, base: nat, n: nat, done: nat, file: seq<bv8>, off: nat, len: nat,
                    got: nat)
    requires Filling(before, mem, base, n, done, file, off, len) && done + got <= len && off + done + got <= |file|
    ensures Filling(before, Patch(mem, base + done, file[off + done..off + done + got]),
      base, n, done + got, file, off, len)
  {
  }

  lemma FillingPad(before: Image, mem: Image, base: nat, n: nat, done: nat, file: seq<bv8>, off: nat, len: nat)
    requires Filling(before, mem, base, n, done, file, off, len) && (done == len || off + done >= |file|)
    ensures var padded := Patch(mem, base + done, Zeros(n - done));
      OnlyTouches(before, padded, base, n) && HoldsFile(padded, base, n, file, off, len)
  {
  }

  /** Read the file into place, one short read after another, then zero the rest of the last page. */
  method Fill(m: Manager, base: nat, len: nat, n: nat, file: seq<bv8>, off: nat, read: (nat, nat) -> int)
    returns (ok: bool)
    requires len <= n && HonestReads(file, read)
    modifies m`mem
    ensures OnlyTouches(old(m.mem), m.mem, base, n)
    ensures ok ==> HoldsFile(m.mem, base, n, file, off, len)
    ensures ok <==> ReadsSucceed(read, off, len, 0)
  {
    var done: nat := 0;
    assert Filling(m.mem, m.mem, base, n, 0, file, off, len);
    hide HoldsFile, OnlyTouches, Patch;
    while done < len
      invariant Filling(old(m.mem), m.mem, base, n, done, file, off, len)
      invariant ReadsSucceed(read, off, len, done) == ReadsSucceed(read, off, len, 0)
    {
      var got := read(off + done, len - done);
      if got < 0 {
        return false;
      }
      if got == 0 {
        break;
      }
      FillingRead(old(m.mem), m.mem, base, n, done, file, off, len, got);
      m.mem := Patch(m.mem, base + done, file[off + done..off + done + got]);
      done := done + got;
    }
    FillingPad(old(m.mem), m.mem, base, n, done, file, off, len);
    m.mem := Patch(m.mem, base + done, Zeros(n - done));
    ok := true;
  }

  /** The table after a mapping of r whose protection was then set to prot. */
  ghost function Settled(t: Table, r: Region, prot: bv32): Table {
    if r.prot == prot then Inserted(t, r) else Protected(Inserted(t, r), r.addr, r.End(), prot)
  }

  lemma SettledGains(t: Table, r: Region, prot: bv32)
    requires WellFormed(t) && ProperRegion(r) && Fits(t, r.addr, r.len)
    ensures GainedExactly(t, Settled(t, r, prot), r.(prot := prot))
  {
    InsertedGains(t, r);
    GainedProtected(t, r, prot);
  }

  /** Map with write access added, as both callers do. */
  method Settle(m: Manager, p: nat, len: nat, prot: bv32, ghost t: Table, ghost r: Region, reply: int)
    requires m.Valid() && m.ready && WellFormed(t) && len < WORD
    requires r == Region(p, PageAlign(len), r.uid, prot | PROT_WRITE) && ProperRegion(r) && Fits(t, p, r.len)
    requires m.Entries() == Inserted(t, r)
    modifies m.regions
    ensures m.Valid() && m.Entries() == Settled(t, r, prot)
    ensures GainedExactly(t, m.Entries(), r.(prot := prot))
  {
    hide WellFormed, Fits, Inserted, GainedExactly, Accounts, Backed, PageAlign, Protected;
    if prot | PROT_WRITE != prot {
      assert (p + PageAlign(len)) % WORD == r.End();
      var _ := m.Protect(p, len, prot, reply);
    }
    SettledGains(t, r, prot);
  }

  lemma ZeroHoldsNothing(mem: Image, base: nat, n: nat, off: nat, len: nat)
    ensures HoldsFile(Patch(mem, base, Zeros(n)), base, n, [], off, len)
    ensures OnlyTouches(mem, Patch(mem, base, Zeros(n)), base, n)
  {
  }

  /** The error of a map call that fails. */
  function MapError(ready: bool, kubridge: bool, hint: nat, len: nat): Failure {
    if PageAlign(len) == 0 then EINVAL
    else if ready && hint != 0 && !kubridge then ENOTSUP
    else ENOMEM
  }

  /** Unmap what was just mapped: the table is as before. */
  method TakeBack(m: Manager, base: nat, len: nat, ghost t: Table, ghost r: Region)
    requires m.Valid() && m.ready && WellFormed(t) && len < WORD
    requires r.addr == base && r.len == PageAlign(len) && ProperRegion(r) && Fits(t, base, r.len)
    requires m.Entries() == Inserted(t, r)
    modifies m`count, m`log, m.regions
    ensures m.Valid() && m.Entries() == t
  {
    hide WellFormed, Accounts, Backed, Fits, Inserted, PageAlign, AfterUnmap, NeedsSplit, Free, Replay;
    InsertedThenCut(t, r);
    AlignedSum(base, PageAlign(len));
    var _ := m.Unmap(base, len);
  }

  /** Map, fill with the file or with zeros, settle the protection; a read error takes the mapping back. */
  method MapFilled(m: Manager, hint: nat, len: nat, prot: bv32, file: Option<seq<bv8>>, off: nat,
                   read: (nat, nat) -> int,
                   reply: ReserveReply, pool: PoolReply, protReply: int)
    returns (ret: Outcome)
    requires m.Valid() && len < WORD
    requires HonestReserve(m.log, reply, PageAlign(len)) && HonestPool(pool)
    requires file.Some? ==> HonestReads(file.value, read)
    modifies m, m.regions
    ensures m.Valid() && m.ready == old(m.ready)
    ensures ret.Failed? ==> m.Entries() == old(m.Entries())
    ensures ret.Mapping? <==> old(m.CanMap(hint, len, reply, pool)) && (file.None? || ReadsSucceed(read, off, len, 0))
    ensures ret.Failed? ==>
      ret.error == if old(m.CanMap(hint, len, reply, pool)) then EREAD else MapError(m.ready, m.kubridge, hint, len)
    ensures ret.Mapping? ==>
      var n := PageAlign(len);
      && len <= n && Fits(old(m.Entries()), ret.base, n)
      && GainedExactly(old(m.Entries()), m.Entries(), Region(ret.base, n, if m.kubridge then reply.uid else -1, prot))
      && OnlyTouches(old(m.mem), m.mem, ret.base, n)
      && HoldsFile(m.mem, ret.base, n, if file.None? then [] else file.value, off, len)
  {
    hide WellFormed, Accounts, Backed, Fits, GainedExactly, Inserted, PageAlign, HonestReads, HoldsFile,
         ReadsSucceed, AfterUnmap,
         FirstFit, Replay, Mappable, OnlyTouches, Patch, NeedsSplit, Free;
    ghost var t := m.Entries();
    var base, err := m.Map(hint, len, prot | PROT_WRITE, reply, pool);
    if base == 0 {
      return Failed(ToFailure(err));
    }
    var n := PageAlign(len);
    RoundsUp(len);
    ghost var r := Region(base, n, if m.kubridge then reply.uid else -1, prot | PROT_WRITE);
    if file.None? {
      ZeroHoldsNothing(m.mem, base, n, off, len);
      m.mem := Patch(m.mem, base, Zeros(n));
    } else {
      var ok := Fill(m, base, len, n, file.value, off, read);
      if !ok {
        TakeBack(m, base, len, t, r);
        return Failed(EREAD);
      }
    }
    Settle(m, base, len, prot, t, r, protReply);
    return Mapping(base);
  }

  lemma RoundsUp(len: nat)
    requires len < WORD && PageAlign(len) > 0
    ensures len <= PageAlign(len)
  {
  }

  method Mmap(m: Manager, addr: nat, len: nat, prot: bv32, flags: bv32, fd: int, off: int,
              file: seq<bv8>, read: (nat, nat) -> int, reply: ReserveReply, pool: PoolReply, protReply: int)
    returns (ret: Outcome)
    requires m.Valid() && len < WORD
    requires HonestReserve(m.log, reply, PageAlign(len)) && HonestPool(pool) && HonestReads(file, read)
    modifies m, m.regions
    ensures m.Valid() && m.ready == old(m.ready)
    ensures ret.Failed? ==> m.Entries() == old(m.Entries())
    ensures ret.Mapping? <==>
      && len != 0 && off >= 0 && off % PAGE == 0 && flags & (MAP_SHARED | MAP_PRIVATE) != 0
      && (flags & MAP_ANONYMOUS != 0 || (fd >= 0 && (flags & MAP_SHARED == 0 || prot & PROT_WRITE == 0)))
      && old(m.CanMap(if flags & MAP_FIXED != 0 then addr else 0, len, reply, pool))
      && (flags & MAP_ANONYMOUS != 0 || ReadsSucceed(read, off, len, 0))
    ensures ret.Failed? ==>
      var hint := if flags & MAP_FIXED != 0 then addr else 0;
      ret.error ==
        if len == 0 || off < 0 || off % PAGE != 0 || flags & (MAP_SHARED | MAP_PRIVATE) == 0 then EINVAL
        else if flags & MAP_ANONYMOUS == 0 && fd < 0 then EBADF
        else if flags & MAP_ANONYMOUS == 0 && flags & MAP_SHARED != 0 && prot & PROT_WRITE != 0 then ENOTSUP
        else if old(m.CanMap(hint, len, reply, pool)) then EREAD
        else if PageAlign(len) == 0 then EINVAL
        else if m.ready && hint != 0 && !m.kubridge then ENOTSUP
        else ENOMEM
    ensures ret.Mapping? ==>
      var n := PageAlign(len);
      && len <= n && Fits(old(m.Entries()), ret.base, n)
      && GainedExactly(old(m.Entries()), m.Entries(), Region(ret.base, n, if m.kubridge then reply.uid else -1, prot))
      && OnlyTouches(old(m.mem), m.mem, ret.base, n)
      && off >= 0
      && HoldsFile(m.mem, ret.base, n, if flags & MAP_ANONYMOUS != 0 then [] else file, off, len)
  {
    hide WellFormed, Accounts, Backed, Fits, GainedExactly, Inserted, PageAlign, HonestReads, HoldsFile,
         ReadsSucceed, AfterUnmap,
         FirstFit, Replay, Mappable, OnlyTouches, Patch;
    var anon := flags & MAP_ANONYMOUS != 0;
    if len == 0 || off < 0 || off % PAGE != 0 {
      return Failed(EINVAL);
    }
    if flags & (MAP_SHARED | MAP_PRIVATE) == 0 {
      return Failed(EINVAL);
    }
    if !anon {
      if fd < 0 {
        return Failed(EBADF);
      }
      if flags & MAP_SHARED != 0 && prot & PROT_WRITE != 0 {
        return Failed(ENOTSUP);
      }
    }
    var hint := if flags & MAP_FIXED != 0 then addr else 0;
    ret := MapFilled(m, hint, len, prot, if anon then None else Some(file), off, read, reply, pool, protReply);
  }

  // ---------------------------------------------------------------- mremap

  /** The bytes that a remapping has to carry over. */
  ghost predicate Carried(before: Image, after: Image, src: nat, dst: nat, n: nat) {
    forall a: nat :: dst <= a < dst + n ==> after(a) == before(src + (a - dst))
  }

  /** What a copy asks of its operands: they lie inside the address space and do not overlap. */
  predicate Apart(src: nat, dst: nat, n: nat) {
    src + n <= WORD && dst + n <= WORD && (src + n <= dst || dst + n <= src)
  }

  /** memcpy: operands that are not apart leave stray bytes in the destination. */
  function MemCpy(mem: Image, dst: nat, src: nat, n: nat, stray: Image): Image {
    (a: nat) =>
      if !(dst <= a < dst + n) then mem(a)
      else if Apart(src, dst, n) then mem(src + (a - dst))
      else stray(a)
  }

  lemma CopyCarries(mem: Image, src: nat, dst: nat, copy: nat, n: nat, stray: Image)
    requires copy <= n
    ensures Apart(src, dst, copy) ==> Carried(mem, MemCpy(mem, dst, src, copy, stray), src, dst, copy)
    ensures OnlyTouches(mem, MemCpy(mem, dst, src, copy, stray), dst, n)
  {
  }

  /** A copy of something carries the bytes, whatever it does on overlapping operands, exactly when they are apart. */
  lemma CopyExact(mem: Image, src: nat, dst: nat, n: nat)
    requires n > 0
    ensures (forall stray: Image :: Carried(mem, MemCpy(mem, dst, src, n, stray), src, dst, n)) <==> Apart(src, dst, n)
  {
    forall stray: Image | Apart(src, dst, n) ensures Carried(mem, MemCpy(mem, dst, src, n, stray), src, dst, n) {
      CopyCarries(mem, src, dst, n, n, stray);
    }
    var wrong: Image := (a: nat) => mem(src) + 1;
    assert MemCpy(mem, dst, src, n, wrong)(dst) == if Apart(src, dst, n) then mem(src) else mem(src) + 1;
  }

  /** Bytes that were mapped lie apart from every range that was free. */
  lemma CopyApart(t: Table, r: Region, s: nat, n: nat)
    requires WellFormed(t) && ProperRegion(r) && Fits(t, r.addr, r.len) && n <= r.len
    requires s < WORD && AllMapped(t, s, s + n)
    ensures Apart(s, r.addr, n)
  {
    MappedApart(t, r, s, s + n);
    TopUnmapped(t);
  }

  /** The copy of a move whose old range is mapped below the top is apart from the new range. */
  lemma CopyBelowTop(t: Table, r: Region, s: nat, oldLen: nat, newLen: nat)
    requires WellFormed(t) && ProperRegion(r) && Fits(t, r.addr, r.len) && newLen <= r.len
    requires Aligned(s) && s < WORD && BelowTop(s, oldLen) && AllMapped(t, s, s + PageAlign(oldLen))
    ensures Apart(s, r.addr, Min(oldLen, newLen))
  {
    hide WellFormed, Fits, At;
    CopyApart(t, r, s, Min(oldLen, newLen));
  }

  lemma CopyOperands(t: Table, r: Region, s: nat, oldLen: nat, newLen: nat)
    requires WellFormed(t) && ProperRegion(r) && Fits(t, r.addr, r.len) && newLen <= r.len && Aligned(s) && s < WORD
    requires BelowTop(s, oldLen) ==> AllMapped(t, s, s + PageAlign(oldLen))
    ensures BelowTop(s, oldLen) || AllMapped(t, s, s + Min(oldLen, newLen)) ==> Apart(s, r.addr, Min(oldLen, newLen))
  {
    hide WellFormed, Fits, AllMapped, PageAlign, Apart;
    if BelowTop(s, oldLen) {
      CopyBelowTop(t, r, s, oldLen, newLen);
    } else if AllMapped(t, s, s + Min(oldLen, newLen)) {
      CopyApart(t, r, s, Min(oldLen, newLen));
    }
  }

  /**
   The page map after a remapping: the new range carries the protection of the old start, the
   rest of the old range is gone unless its removal was given up, and nothing else changed.
   */
  ghost predicate Remapped(t: Table, u: Table, old': Span, new': Span, uid: int, prot: bv32, kept: bool) {
    forall a: nat :: At(u, a) ==
      if new'.base <= a < new'.base + new'.len then Mapped(uid, prot)
      else if old'.base <= a < old'.base + old'.len && !kept then Unmapped
      else At(t, a)
  }

  /** The move leaves the old range mapped: cutting its middle out would need one entry too many. */
  ghost predicate SplitGivenUp(t: Table, s: nat, e: nat) {
    NeedsSplit(t, s, e) && |t| + 1 == MAX_REGIONS
  }

  lemma ResizedRemaps(t: Table, k: nat, n: nat)
    requires WellFormed(t) && k < |t| && WellFormed(Resized(t, k, n))
    ensures Remapped(t, Resized(t, k, n), Span(t[k].addr, t[k].len), Span(t[k].addr, n), t[k].uid, t[k].prot, false)
  {
    hide At, Resized;
    forall a: nat ensures At(Resized(t, k, n), a) ==
      if t[k].addr <= a < t[k].addr + n then Mapped(t[k].uid, t[k].prot)
      else if t[k].addr <= a < t[k].addr + t[k].len then Unmapped
      else At(t, a)
    {
      ResizedAt(t, k, n, a);
      if t[k].Holds(a) { AtIndex(t, a, k); }
    }
  }

  /** A new mapping never meets a range that is wholly mapped. */
  lemma MappedApart(t: Table, r: Region, s: nat, e: nat)
    requires Fits(t, r.addr, r.len) && AllMapped(t, s, e)
    ensures !Overlaps(r, s, e) || r.len == 0 || e <= s
  {
    if Overlaps(r, s, e) && r.len > 0 && s < e {
      var a := if s <= r.addr then r.addr else s;
      assert At(t, a) != Unmapped;
      var i := AtSome(t, a);
    }
  }

  lemma SettledSplit(t: Table, r: Region, prot: bv32, s: nat, e: nat)
    requires !Overlaps(r, s, e)
    ensures NeedsSplit(Settled(t, r, prot), s, e) <==> NeedsSplit(t, s, e)
    ensures |Settled(t, r, prot)| == |t| + 1
  {
    hide Inserted;
    InsertedIndex(t, r);
    InsertedNeedsSplit(t, r, s, e);
    ProtectedNeedsSplit(Inserted(t, r), r.addr, r.End(), prot, s, e);
  }

  /** Map the new range, settle its protection, unmap the old one: the page map that leaves. */
  lemma MovedRemaps(t: Table, r: Region, prot: bv32, s: nat, o: nat)
    requires WellFormed(t) && ProperRegion(r) && Fits(t, r.addr, r.len) && AllMapped(t, s, s + o) && 0 < o
    ensures Remapped(t, AfterUnmap(Settled(t, r, prot), s, s + o), Span(s, o), Span(r.addr, r.len), r.uid, prot,
        SplitGivenUp(t, s, s + o))
  {
    hide At, CutAll, Settled, NeedsSplit, AllMapped;
    var v := Settled(t, r, prot);
    MappedApart(t, r, s, s + o);
    SettledGains(t, r, prot);
    SettledSplit(t, r, prot, s, s + o);
    var u, kept := AfterUnmap(v, s, s + o), SplitGivenUp(t, s, s + o);
    forall a: nat
      ensures At(u, a) ==
        if r.addr <= a < r.addr + r.len then Mapped(r.uid, prot)
        else if s <= a < s + o && !kept then Unmapped
        else At(t, a)
    {
      CutAllAt(v, s, s + o, a);
    }
    assert Remapped(t, u, Span(s, o), Span(r.addr, r.len), r.uid, prot, kept);
  }

  /** A mapped address stays mapped at the same protection while a new range is gained. */
  lemma SettledKeepsStart(t: Table, r: Region, prot: bv32, s: nat)
    requires WellFormed(t) && ProperRegion(r) && Fits(t, r.addr, r.len) && At(t, s) != Unmapped
    ensures !r.Holds(s) && At(Settled(t, r, prot), s) == At(t, s)
  {
    hide Settled, Inserted;
    SettledGains(t, r, prot);
    var i := AtSome(t, s);
    assert !Overlaps(t[i], r.addr, r.End());
  }

  /** The unmap of a wrapped old range cuts an entry in two around its own start and lets the pieces overlap. */
  ghost predicate WrappedSplit(t: Table, s: nat, o: nat) {
    0 < o && WORD <= s + o && NeedsSplit(t, s, (s + o) % WORD) && |t| + 1 < MAX_REGIONS
  }

  lemma WrappedNeedsSplit(t: Table, s: nat, e: nat)
    requires e < s
    ensures Free(t, s, e) <==> !NeedsSplit(t, s, e)
  {
  }

  /** When the end of the old range wraps, its unmap leaves the old start mapped. */
  lemma MovedWrapped(t: Table, r: Region, prot: bv32, s: nat, o: nat)
    requires WellFormed(t) && ProperRegion(r) && Fits(t, r.addr, r.len) && At(t, s) != Unmapped
    requires s < WORD && 0 < o < WORD <= s + o && WellFormed(Settled(t, r, prot)) && |t| < MAX_REGIONS
    ensures
      var v, e := Settled(t, r, prot), (s + o) % WORD;
      && At(AfterUnmap(v, s, e), s) != Unmapped
      && (Free(v, s, e) || (NeedsSplit(v, s, e) && |v| == MAX_REGIONS) <==> !WrappedSplit(t, s, o))
  {
    hide At, CutAll, Settled, NeedsSplit, WellFormed, Fits;
    var v, e := Settled(t, r, prot), s + o - WORD;
    assert (s + o) % WORD == e;
    SettledKeepsStart(t, r, prot, s);
    SettledSplit(t, r, prot, s, e);
    WrappedNeedsSplit(v, s, e);
    var i := AtSome(v, s);
    WrappedCutKeeps(v, s, e, i, s);
  }

  /** The range ends below the last page of the address space, so that no end of it wraps. */
  predicate BelowTop(s: nat, len: nat) { s + len + PAGE <= WORD }

  lemma WrappedRange(s: nat, len: nat)
    requires Aligned(s) && s < WORD && len < WORD && !BelowTop(s, len)
    ensures PageAlign((s + len) % WORD) <= s
    ensures PageAlign(len) > 0 ==> WORD <= s + PageAlign(len)
    ensures 0 < len
  {
    assert TrueEnd(s, len) >= WORD;
    WrappedEnd(s, len);
  }

  /** The table after a move from s: the new range is recorded, then the old one is unmapped up to its wrapped end. */
  ghost function MovedTable(t: Table, r: Region, prot: bv32, s: nat, o: nat): Table {
    if o == 0 then Settled(t, r, prot) else AfterUnmap(Settled(t, r, prot), s, (s + o) % WORD)
  }

  /** The move takes exactly the old range away if and only if its end does not wrap and no split is given up. */
  lemma MovedExact(t: Table, r: Region, prot: bv32, s: nat, len: nat)
    requires WellFormed(t) && ProperRegion(r) && Fits(t, r.addr, r.len) && WellFormed(Settled(t, r, prot))
    requires Aligned(s) && s < WORD && len < WORD && At(t, s) != Unmapped && |t| < MAX_REGIONS
    requires BelowTop(s, len) ==> AllMapped(t, s, s + PageAlign(len))
    ensures
      var o := PageAlign(len);
      Remapped(t, MovedTable(t, r, prot, s, o), Span(s, TrueEnd(s, len) - s),
        Span(r.addr, r.len), r.uid, prot, false) <==>
        len == 0 || (BelowTop(s, len) && !SplitGivenUp(t, s, s + o))
  {
    hide At, Settled, NeedsSplit, WellFormed, Fits, AfterUnmap, AllMapped, PageAlign, SplitGivenUp;
    var o := PageAlign(len);
    SettledKeepsStart(t, r, prot, s);
    if BelowTop(s, len) {
      LenBelowTop(s, len);
      MovedBelowTop(t, r, prot, s, o);
    } else {
      WrappedRange(s, len);
      assert s < TrueEnd(s, len) by { assert TrueEnd(s, len) >= WORD; }
      if o > 0 {
        MovedWrapped(t, r, prot, s, o);
      }
    }
  }

  lemma LenBelowTop(s: nat, len: nat)
    requires Aligned(s) && BelowTop(s, len)
    ensures s + PageAlign(len) < WORD && TrueEnd(s, len) == s + PageAlign(len)
    ensures PageAlign(len) == 0 <==> len == 0
  {
  }

  lemma MovedBelowTop(t: Table, r: Region, prot: bv32, s: nat, o: nat)
    requires WellFormed(t) && ProperRegion(r) && Fits(t, r.addr, r.len) && At(t, s) != Unmapped
    requires s + o < WORD && AllMapped(t, s, s + o)
    ensures Remapped(t, MovedTable(t, r, prot, s, o), Span(s, o), Span(r.addr, r.len), r.uid, prot,
      SplitGivenUp(t, s, s + o))
    ensures Remapped(t, MovedTable(t, r, prot, s, o), Span(s, o), Span(r.addr, r.len), r.uid, prot, false) <==>
      o == 0 || !SplitGivenUp(t, s, s + o)
  {
    hide At, Settled, NeedsSplit, WellFormed, AllMapped, AfterUnmap, SplitGivenUp;
    var u := MovedTable(t, r, prot, s, o);
    SettledKeepsStart(t, r, prot, s);
    if o == 0 {
      SettledGains(t, r, prot);
      SettledRemaps(t, u, r.(prot := prot), s, SplitGivenUp(t, s, s));
      SettledRemaps(t, u, r.(prot := prot), s, false);
    } else {
      assert (s + o) % WORD == s + o;
      MovedRemaps(t, r, prot, s, o);
      assert s <= s < s + o;
    }
  }

  /**
   The moving half of mremap: map the new range, copy, settle the protection, unmap the old range.
   The old range goes if and only if its end does not wrap and its split is not given up.
   */
  method Move(m: Manager, oldAddr: nat, oldLen: nat, newLen: nat, fixed: nat, prot: bv32,
              reply: ReserveReply, pool: PoolReply, protReply: int, stray: Image)
    returns (ret: Outcome)
    requires m.Valid() && m.ready && Aligned(oldAddr) && oldAddr < WORD && oldLen < WORD && newLen < WORD
    requires At(m.Entries(), oldAddr) != Unmapped
    requires BelowTop(oldAddr, oldLen) ==> AllMapped(m.Entries(), oldAddr, oldAddr + PageAlign(oldLen))
    requires HonestReserve(m.log, reply, PageAlign(newLen)) && HonestPool(pool)
    modifies m, m.regions
    ensures m.ready && m.Shape() && Accounts(m.Entries(), m.log)
    ensures m.Valid() <==> ret.Failed? || !WrappedSplit(old(m.Entries()), oldAddr, PageAlign(oldLen))
    ensures ret.Failed? ==> m.Entries() == old(m.Entries()) && m.mem == old(m.mem)
    ensures ret.Failed? ==> ret.error == MapError(m.ready, m.kubridge, fixed, newLen)
    ensures ret.Mapping? <==> old(m.CanMap(fixed, newLen, reply, pool))
    ensures ret.Mapping? ==>
      var s, o, n := oldAddr, PageAlign(oldLen), PageAlign(newLen);
      var uid := if m.kubridge then reply.uid else -1;
      && 0 < n && Fits(old(m.Entries()), ret.base, n)
      && m.Entries() == MovedTable(old(m.Entries()), Region(ret.base, n, uid, prot | PROT_WRITE), prot, s, o)
      && (BelowTop(s, oldLen) ==>
           Remapped(old(m.Entries()), m.Entries(), Span(s, o), Span(ret.base, n), uid, prot,
             SplitGivenUp(old(m.Entries()), s, s + o)))
      && (Remapped(old(m.Entries()), m.Entries(), Span(s, TrueEnd(s, oldLen) - s),
            Span(ret.base, n), uid, prot, false) <==>
           oldLen == 0 || (BelowTop(s, oldLen) && !SplitGivenUp(old(m.Entries()), s, s + o)))
      && m.mem == MemCpy(old(m.mem), ret.base, s, Min(oldLen, newLen), stray)
      && (BelowTop(s, oldLen) || AllMapped(old(m.Entries()), s, s + Min(oldLen, newLen)) ==>
           Apart(s, ret.base, Min(oldLen, newLen)))
      && (Apart(s, ret.base, Min(oldLen, newLen)) ==> Carried(old(m.mem), m.mem, s, ret.base, Min(oldLen, newLen)))
      && OnlyTouches(old(m.mem), m.mem, ret.base, n)
  {
    hide WellFormed, Accounts, Backed, Fits, GainedExactly, Inserted, PageAlign, AfterUnmap, FirstFit, Replay,
         AllMapped,
         NeedsSplit, Settled, Mappable, Remapped, SplitGivenUp, MemCpy, Apart, OnlyTouches, Carried, Free, At,
         WrappedSplit, CutsWhole,
         TrueEnd, BelowTop;
    ghost var t := m.Entries();
    ghost var o := PageAlign(oldLen);
    var p, err := m.Map(fixed, newLen, prot | PROT_WRITE, reply, pool);
    if p == 0 {
      return Failed(ToFailure(err));
    }
    ghost var r := Region(p, PageAlign(newLen), if m.kubridge then reply.uid else -1, prot | PROT_WRITE);
    var copy := Min(oldLen, newLen);
    RoundsUp(newLen);
    CopyCarries(m.mem, oldAddr, p, copy, PageAlign(newLen), stray);
    CopyOperands(t, r, oldAddr, oldLen, newLen);
    m.mem := MemCpy(m.mem, p, oldAddr, copy, stray);
    Settle(m, p, newLen, prot, t, r, protReply);
    MovedExact(t, r, prot, oldAddr, oldLen);
    MovedOutcome(t, r, prot, oldAddr, oldLen);
    var _ := m.Unmap(oldAddr, oldLen);
    return Mapping(p);
  }

  /** What the last step of a move leaves, whether or not the old range wraps. */
  lemma MovedOutcome(t: Table, r: Region, prot: bv32, s: nat, len: nat)
    requires WellFormed(t) && ProperRegion(r) && Fits(t, r.addr, r.len) && WellFormed(Settled(t, r, prot))
    requires Aligned(s) && s < WORD && len < WORD && At(t, s) != Unmapped && |t| < MAX_REGIONS
    requires BelowTop(s, len) ==> AllMapped(t, s, s + PageAlign(len))
    ensures
      var o := PageAlign(len);
      var v, e := Settled(t, r, prot), (s + o) % WORD;
      && (BelowTop(s, len) ==>
           Remapped(t, MovedTable(t, r, prot, s, o), Span(s, o), Span(r.addr, r.len), r.uid, prot,
             SplitGivenUp(t, s, s + o)))
      && (BelowTop(s, len) ==> s + o < WORD && CutsWhole(v, s, s + o) && !WrappedSplit(t, s, o))
      && (!BelowTop(s, len) && o > 0 ==> WORD <= s + o)
      && (!BelowTop(s, len) && o > 0 ==>
           (Free(v, s, e) || (NeedsSplit(v, s, e) && |v| == MAX_REGIONS) <==> !WrappedSplit(t, s, o)))
      && (o == 0 ==> !WrappedSplit(t, s, o))
  {
    hide At, Settled, NeedsSplit, WellFormed, Fits, AfterUnmap, AllMapped, PageAlign, SplitGivenUp, Remapped,
         MovedTable;
    var o := PageAlign(len);
    if BelowTop(s, len) {
      LenBelowTop(s, len);
      MovedBelowTop(t, r, prot, s, o);
      AlignedSum(s, o);
    } else {
      WrappedRange(s, len);
      if o > 0 {
        MovedWrapped(t, r, prot, s, o);
      }
    }
  }

  lemma SettledRemaps(t: Table, u: Table, r: Region, s: nat, kept: bool)
    requires GainedExactly(t, u, r)
    ensures Remapped(t, u, Span(s, 0), Span(r.addr, r.len), r.uid, r.prot, kept)
  {
  }

  ghost predicate BadRequest(oldAddr: nat, newLen: nat, flags: bv32, fixed: nat) {
    || !Aligned(oldAddr) || newLen == 0 || flags & !(MREMAP_MAYMOVE | MREMAP_FIXED) != 0
    || (flags & MREMAP_FIXED != 0 && (flags & MREMAP_MAYMOVE == 0 || !Aligned(fixed)))
  }

  /** The start is mapped, with a protection that is not negative, and the walk over the old range finds no hole. */
  ghost predicate Movable(t: Table, s: nat, oldLen: nat) {
    && At(t, s) != Unmapped && At(t, s).prot < 0x8000_0000
    && (BelowTop(s, oldLen) ==> AllMapped(t, s, s + PageAlign(oldLen)))
  }

  /** For an aligned start the walk answers mapped for every range whose end wraps. */
  lemma WalkAnswers(t: Table, s: nat, len: nat)
    requires Aligned(s) && s < WORD && len < WORD
    ensures AllMapped(t, s, PageAlign((s + len) % WORD)) <==> (BelowTop(s, len) ==> AllMapped(t, s, s + PageAlign(len)))
  {
    hide PageAlign, At;
    if BelowTop(s, len) {
      PageEnd(s, len);
    } else {
      WrappedRange(s, len);
    }
  }

  /** An entry that is exactly the old range lies below the top. */
  lemma EntryBelowTop(t: Table, k: nat, len: nat)
    requires WellFormed(t) && k < |t| && t[k].len == PageAlign(len) && len < WORD
    ensures BelowTop(t[k].addr, len) && len <= PageAlign(len)
  {
    assert ProperRegion(t[k]);
    if !BelowTop(t[k].addr, len) {
      WrappedRange(t[k].addr, len);
    }
  }

  /**
   mremap on every 32-bit request. A failure changes nothing. A success in place gives the entry its
   new length; the table stays valid exactly when that length stays below the top. A move carries
   the bytes and takes the old range away exactly when its end does not wrap and its split is not
   given up.
   */
  method Mremap(m: Manager, oldAddr: nat, oldLen: nat, newLen: nat, flags: bv32, fixed: nat,
                reply: ReserveReply, pool: PoolReply, protReply: int, stray: Image)
    returns (ret: Outcome)
    requires m.Valid() && oldAddr < WORD && oldLen < WORD && newLen < WORD
    requires HonestReserve(m.log, reply, PageAlign(newLen)) && HonestPool(pool)
    modifies m, m.regions
    ensures m.ready == old(m.ready) && m.Shape() && Accounts(m.Entries(), m.log)
    ensures m.Valid() <==>
      || ret.Failed?
      || (ret.base == oldAddr && BelowTop(oldAddr, newLen))
      || (ret.base != oldAddr && !WrappedSplit(old(m.Entries()), oldAddr, PageAlign(oldLen)))
    ensures ret.Failed? ==> m.Entries() == old(m.Entries()) && m.mem == old(m.mem)
    ensures BadRequest(oldAddr, newLen, flags, fixed) ==> ret == Failed(EINVAL)
    ensures !BadRequest(oldAddr, newLen, flags, fixed) ==>
      (ret != Failed(EFAULT) <==> m.ready && Movable(old(m.Entries()), oldAddr, oldLen))
    ensures ret.Mapping? && ret.base == oldAddr ==>
      var s, o, n := oldAddr, PageAlign(oldLen), PageAlign(newLen);
      var page := At(old(m.Entries()), s);
      && (exists k :: 0 <= k < old(m.count) && old(m.Entries())[k].addr == s && old(m.Entries())[k].len == o
            && m.Entries() == Resized(old(m.Entries()), k, n))
      && (BelowTop(s, newLen) ==>
           && page != Unmapped
           && Remapped(old(m.Entries()), m.Entries(), Span(s, o), Span(s, n), page.uid, page.prot, false)
           && Carried(old(m.mem), m.mem, s, s, Min(oldLen, newLen))
           && OnlyTouches(old(m.mem), m.mem, s, n))
    ensures ret.Mapping? && ret.base != oldAddr ==>
      var s, o, n := oldAddr, PageAlign(oldLen), PageAlign(newLen);
      var page, uid := At(old(m.Entries()), s), if m.kubridge then reply.uid else -1;
      && page != Unmapped
      && m.Entries() == MovedTable(old(m.Entries()), Region(ret.base, n, uid, page.prot | PROT_WRITE), page.prot, s, o)
      && (BelowTop(s, oldLen) ==>
           Remapped(old(m.Entries()), m.Entries(), Span(s, o), Span(ret.base, n), uid, page.prot,
             SplitGivenUp(old(m.Entries()), s, s + o)))
      && (Remapped(old(m.Entries()), m.Entries(), Span(s, TrueEnd(s, oldLen) - s),
            Span(ret.base, n), uid, page.prot, false) <==>
           oldLen == 0 || (BelowTop(s, oldLen) && !SplitGivenUp(old(m.Entries()), s, s + o)))
      && m.mem == MemCpy(old(m.mem), ret.base, s, Min(oldLen, newLen), stray)
      && (BelowTop(s, oldLen) || AllMapped(old(m.Entries()), s, s + Min(oldLen, newLen)) ==>
           Apart(s, ret.base, Min(oldLen, newLen)))
      && (Apart(s, ret.base, Min(oldLen, newLen)) ==> Carried(old(m.mem), m.mem, s, ret.base, Min(oldLen, newLen)))
      && OnlyTouches(old(m.mem), m.mem, ret.base, n)
    ensures !BadRequest(oldAddr, newLen, flags, fixed) && ret != Failed(EFAULT) ==>
      var target := if flags & MREMAP_FIXED != 0 then fixed else 0;
      var resized := flags & MREMAP_FIXED == 0
        && Resizable(old(m.Entries()), oldAddr, PageAlign(oldLen), PageAlign(newLen), old(m.vmBase));
      var moved := flags & MREMAP_MAYMOVE != 0 && old(m.CanMap(target, newLen, reply, pool));
      && (ret == Mapping(oldAddr) <==> resized)
      && (ret.Mapping? <==> resized || moved)
      && (ret.Failed? ==>
           ret.error ==
             if flags & MREMAP_MAYMOVE == 0 then ENOMEM
             else if PageAlign(newLen) == 0 then EINVAL
             else if target != 0 && !m.kubridge then ENOTSUP
             else ENOMEM)
  {
    hide WellFormed, Accounts, Backed, Fits, Inserted, PageAlign, FirstFit, Replay, AllMapped, NeedsSplit, At,
         Remapped, Resized, Resizable,
         Mappable, MovedTable, SplitGivenUp, WrappedSplit, TrueEnd, BelowTop, Carried, OnlyTouches, ZeroFilled, Free,
         Ordered, Uids, HonestPool,
         MemCpy, Apart;
    if !Aligned(oldAddr) || newLen == 0 || flags & !(MREMAP_MAYMOVE | MREMAP_FIXED) != 0 {
      return Failed(EINVAL);
    }
    if flags & MREMAP_FIXED != 0 && flags & MREMAP_MAYMOVE == 0 {
      return Failed(EINVAL);
    }
    var target := 0;
    if flags & MREMAP_FIXED != 0 {
      target := fixed;
      if !Aligned(fixed) {
        return Failed(EINVAL);
      }
    }
    ghost var t := m.Entries();
    WalkAnswers(t, oldAddr, oldLen);
    var prot := m.ProtOf(oldAddr);
    var whole := m.MappedRange(oldAddr, oldLen);
    if prot >= 0x8000_0000 || whole == 0 {
      return Failed(EFAULT);
    }
    if flags & MREMAP_FIXED == 0 {
      var done, k := m.Resize(oldAddr, oldLen, newLen);
      if done == 0 {
        ResizedInPlace(t, m.Entries(), k, oldLen, newLen, old(m.mem), m.mem);
        return Mapping(oldAddr);
      }
    }
    if flags & MREMAP_MAYMOVE == 0 {
      return Failed(ENOMEM);
    }
    ret := Move(m, oldAddr, oldLen, newLen, target, prot, reply, pool, protReply, stray);
    if ret.Mapping? {
      MovedAway(t, oldAddr, ret.base, PageAlign(newLen));
    }
  }

  lemma BelowTopIff(s: nat, len: nat)
    requires Aligned(s) && s < WORD && 0 < len < WORD
    ensures BelowTop(s, len) <==> PageAlign(len) > 0 && s + PageAlign(len) < WORD
  {
    if BelowTop(s, len) {
      LenBelowTop(s, len);
    } else {
      WrappedRange(s, len);
    }
  }

  /** What a resize in place leaves. */
  lemma ResizedInPlace(t: Table, u: Table, k: nat, oldLen: nat, newLen: nat, before: Image, after: Image)
    requires WellFormed(t) && k < |t| && t[k].len == PageAlign(oldLen) && u == Resized(t, k, PageAlign(newLen))
    requires oldLen < WORD && 0 < newLen < WORD
    requires PageAlign(newLen) > 0 && t[k].addr + PageAlign(newLen) < WORD ==> WellFormed(u)
    requires t[k].addr + PageAlign(newLen) < WORD ==>
      ZeroFilled(before, after, t[k].addr + PageAlign(oldLen), t[k].addr + PageAlign(newLen))
    ensures BelowTop(t[k].addr, newLen) <==> PageAlign(newLen) > 0 && t[k].addr + PageAlign(newLen) < WORD
    ensures BelowTop(t[k].addr, newLen) ==>
      var s, o, n := t[k].addr, PageAlign(oldLen), PageAlign(newLen);
      && At(t, s) == Mapped(t[k].uid, t[k].prot)
      && Remapped(t, u, Span(s, o), Span(s, n), t[k].uid, t[k].prot, false)
      && Carried(before, after, s, s, Min(oldLen, newLen)) && OnlyTouches(before, after, s, n)
  {
    hide PageAlign, At, Resized, Remapped, Carried, OnlyTouches, ZeroFilled;
    assert ProperRegion(t[k]);
    BelowTopIff(t[k].addr, newLen);
    if BelowTop(t[k].addr, newLen) {
      StartPage(t, k);
      ResizedRemaps(t, k, PageAlign(newLen));
      EntryBelowTop(t, k, oldLen);
      RoundsUp(newLen);
      ZeroFilledCarries(before, after, t[k].addr, PageAlign(oldLen), PageAlign(newLen), oldLen, newLen);
    }
  }

  lemma StartPage(t: Table, k: nat)
    requires WellFormed(t) && k < |t|
    ensures At(t, t[k].addr) == Mapped(t[k].uid, t[k].prot)
  {
  }

  lemma ZeroFilledCarries(before: Image, after: Image, s: nat, o: nat, n: nat, oldLen: nat, newLen: nat)
    requires ZeroFilled(before, after, s + o, s + n) && oldLen <= o && newLen <= n
    ensures Carried(before, after, s, s, Min(oldLen, newLen)) && OnlyTouches(before, after, s, n)
  {
  }

  /** A range that meets no entry does not start at a mapped address. */
  lemma MovedAway(t: Table, s: nat, p: nat, n: nat)
    requires At(t, s) != Unmapped && Fits(t, p, n) && 0 < n
    ensures p != s
  {
  }

  /** Where the first two pages that are free behind the sample entry go. */
  const SECOND := Region(0x8100_3000, 0x2000, -1, 3)

  lemma SecondSettles()
    ensures ProperRegion(SECOND) && Fits(SAMPLE, SECOND.addr, SECOND.len)
    ensures Settled(SAMPLE, SECOND, 3) == [SAMPLE[0], SECOND] && WellFormed([SAMPLE[0], SECOND])
  {
  }

  /**
   A request that passes every check, moves the last page of an entry and unmaps a range that
   wraps: the old range stays, and two entries of the new table overlap.
   */
  lemma MoveWrapWitness()
    ensures Movable(SAMPLE, 0x8100_2000, 0xFFFF_F000)
    ensures
      var u, s := MovedTable(SAMPLE, SECOND, 3, 0x8100_2000, PageAlign(0xFFFF_F000)), 0x8100_2000;
      && !Remapped(SAMPLE, u, Span(s, TrueEnd(s, 0xFFFF_F000) - s), Span(SECOND.addr, SECOND.len), -1, 3, false)
      && !Ordered(u)
  {
    SampleWellFormed();
    SecondSettles();
    AtIndex(SAMPLE, 0x8100_2000, 0);
    assert PageAlign(0xFFFF_F000) == 0xFFFF_F000 && (0x8100_2000 + 0xFFFF_F000) % WORD == 0x8100_1000;
    MovedExact(SAMPLE, SECOND, 3, 0x8100_2000, 0xFFFF_F000);
    var v := [SAMPLE[0], SECOND];
    assert Overlaps(v[0], 0x8100_2000, 0x8100_1000);
    WrappedCutOverlaps(v, 0x8100_2000, 0x8100_1000);
  }

  /** A memcpy that copies byte by byte from the front. */
  function Forward(mem: Image, dst: nat, src: nat, n: nat): Image {
    if n == 0 then mem
    else var before := Forward(mem, dst, src, n - 1); Patch(before, dst + n - 1, [before(src + n - 1)])
  }

  /** The index below d that k falls back to when the bytes repeat every d bytes. */
  function Repeated(k: nat, d: nat): nat
    requires d > 0
  {
    if k < d then k else Repeated(k - d, d)
  }

  /** Into a destination behind its source it repeats the bytes before the destination. */
  lemma {:induction false} ForwardRepeats(mem: Image, dst: nat, src: nat, n: nat, a: nat)
    requires src < dst
    ensures Forward(mem, dst, src, n)(a) ==
      if dst <= a < dst + n then mem(src + Repeated(a - dst, dst - src)) else mem(a)
  {
    if n > 0 {
      ForwardRepeats(mem, dst, src, n - 1, a);
      ForwardRepeats(mem, dst, src, n - 1, src + n - 1);
    }
  }

  /**
   The same request asks for a copy of two pages onto a destination that starts one page on: the
   pool's first fit lies right behind the entry, and a copy from the front loses the second page.
   */
  lemma MoveOverlapWitness(mem: Image)
    requires mem(0x8100_2000) != mem(0x8100_3000)
    ensures Movable(SAMPLE, 0x8100_2000, 0xFFFF_F000) && FirstFit(SAMPLE, 0x8100_0000, PageAlign(0x2000), 0x8100_3000)
    ensures !Apart(0x8100_2000, 0x8100_3000, 0x2000)
    ensures !Carried(mem, Forward(mem, 0x8100_3000, 0x8100_2000, 0x2000), 0x8100_2000, 0x8100_3000, 0x2000)
  {
    hide Forward;
    MoveWrapWitness();
    ForwardRepeats(mem, 0x8100_3000, 0x8100_2000, 0x2000, 0x8100_4000);
    assert PageAlign(0x2000) == 0x2000;
    forall c | 0x8100_0000 <= c && Fits(SAMPLE, c, 0x2000) ensures 0x8100_3000 <= c {
      assert !Overlaps(SAMPLE[0], c, c + 0x2000);
    }
  }

  /** munmap: argument checks, then the manager's unmap. */
  method Munmap(m: Manager, addr: nat, len: nat) returns (ok: bool)
    requires m.Valid() && addr < WORD && len < WORD
    modifies m, m.regions
    ensures m.ready == old(m.ready) && m.mem == old(m.mem) && m.Shape()
    ensures Accounts(m.Entries(), m.log) && old(m.log) <= m.log
    ensures !ok ==> m.Valid() && m.Entries() == old(m.Entries())
    ensures ok ==> Aligned(addr) && len > 0 && m.Entries() != old(m.Entries())
    ensures Aligned(addr) && PageAlign(len) > 0 && m.ready ==>
      (LostExactly(old(m.Entries()), m.Entries(), addr, addr + PageAlign(len)) <==>
        || (forall i :: 0 <= i < old(m.count) ==> old(m.Entries())[i].End() <= addr)
        || (addr + PageAlign(len) < WORD
            && !(NeedsSplit(old(m.Entries()), addr, addr + PageAlign(len)) && old(m.count) == MAX_REGIONS)))
    ensures m.Valid() <==> !ok || addr + PageAlign(len) < WORD
  {
    hide WellFormed, Accounts, Backed, PageAlign, AfterUnmap, LostExactly, NeedsSplit, Free;
    if len == 0 || !Aligned(addr) {
      return false;
    }
    if PageAlign(len) > 0 {
      UnmapExact(m.Entries(), addr, PageAlign(len));
    }
    var ret := m.Unmap(addr, len);
    return ret == 0;
  }
}
