/**
 The region table of the memory manager as a value: a sequence of address
 intervals sorted by address, the page map it stands for, and the effect on that
 page map of cutting a range out, inserting a region and changing protections.
 */
module Regions {
  import opened Basics

  const PAGE: nat := 0x1000
  const WORD: nat := 0x1_0000_0000
  const MAX_REGIONS: nat := 256
  const POOL_SIZE: nat := 16 * 1024 * 1024

  /** One table entry. A negative uid marks memory taken from the pool. */
  datatype Region = Region(addr: nat, len: nat, uid: int, prot: bv32) {
    function End(): nat { addr + len }

    predicate Holds(a: nat) { addr <= a < End() }
  }

  /** What the table records about one mapped address. */
  datatype Page = Unmapped | Mapped(uid: int, prot: bv32)

  type Table = seq<Region>

  /** Rounding up to a page in 32-bit arithmetic: the sum wraps before it is masked. */
  function PageAlign(x: nat): (r: nat)
    ensures r < WORD && Aligned(r)
    ensures x + PAGE <= WORD ==> x <= r < x + PAGE
    ensures WORD - PAGE < x < WORD ==> r == 0
  {
    (x + PAGE - 1) % WORD / PAGE * PAGE
  }

  predicate Aligned(a: nat) { a % PAGE == 0 }

  /** A single entry that the table may hold. */
  predicate ProperRegion(r: Region) {
    0 < r.len && Aligned(r.addr) && Aligned(r.len) && r.End() < WORD
  }

  ghost predicate Ordered(t: Table) {
    forall i, j :: 0 <= i < j < |t| ==> t[i].End() <= t[j].addr
  }

  /** The table invariant: non-empty page-aligned entries, sorted and pairwise disjoint. */
  ghost predicate WellFormed(t: Table) {
    (forall i :: 0 <= i < |t| ==> ProperRegion(t[i])) && Ordered(t)
  }

  /** The page map: what is recorded for address a. */
  function At(t: Table, a: nat): Page {
    if t == [] then Unmapped
    else if t[|t| - 1].Holds(a) then Mapped(t[|t| - 1].uid, t[|t| - 1].prot)
    else At(t[..|t| - 1], a)
  }

  /** Reservations that some entry still refers to. */
  function Uids(t: Table): set<int> {
    set i | 0 <= i < |t| && t[i].uid >= 0 :: t[i].uid
  }

  // ---------------------------------------------------------------- reading the page map

  lemma {:induction false} AtIndex(t: Table, a: nat, i: nat)
    requires Ordered(t) && i < |t| && t[i].Holds(a)
    ensures At(t, a) == Mapped(t[i].uid, t[i].prot)
  {
    if i < |t| - 1 {
      AtIndex(t[..|t| - 1], a, i);
    }
  }

  lemma {:induction false} AtNowhere(t: Table, a: nat)
    requires forall i :: 0 <= i < |t| ==> !t[i].Holds(a)
    ensures At(t, a) == Unmapped
  {
    if t != [] {
      AtNowhere(t[..|t| - 1], a);
    }
  }

  lemma {:induction false} AtSome(t: Table, a: nat) returns (i: nat)
    requires At(t, a) != Unmapped
    ensures i < |t| && t[i].Holds(a)
  {
    if t[|t| - 1].Holds(a) {
      i := |t| - 1;
    } else {
      i := AtSome(t[..|t| - 1], a);
    }
  }

  lemma {:induction false} AtConcat(t: Table, u: Table, a: nat)
    ensures At(t + u, a) == if At(u, a) != Unmapped then At(u, a) else At(t, a)
  {
    if u == [] {
      assert t + u == t;
    } else {
      assert (t + u)[..|t + u| - 1] == t + u[..|u| - 1];
      AtConcat(t, u[..|u| - 1], a);
    }
  }

  lemma AtOne(r: Region, a: nat)
    ensures At([r], a) == if r.Holds(a) then Mapped(r.uid, r.prot) else Unmapped
  {
  }

  // ---------------------------------------------------------------- cutting a range out

  /** What is left of one entry once the addresses of [s, e) are gone. */
  function Cut(r: Region, s: nat, e: nat): Table {
    if r.End() <= s || e <= r.addr then [r]
    else
      (if r.addr < s then [r.(len := s - r.addr)] else [])
      + (if e < r.End() then [r.(addr := e, len := r.End() - e)] else [])
  }

  function CutAll(t: Table, s: nat, e: nat): Table {
    if t == [] then [] else CutAll(t[..|t| - 1], s, e) + Cut(t[|t| - 1], s, e)
  }

  predicate Overlaps(r: Region, s: nat, e: nat) { s < r.End() && r.addr < e }

  /** Some entry loses only its middle, so one entry becomes two. */
  ghost predicate NeedsSplit(t: Table, s: nat, e: nat) {
    exists i :: 0 <= i < |t| && Splits(t[i], s, e)
  }

  predicate Splits(r: Region, s: nat, e: nat) {
    Overlaps(r, s, e) && r.addr < s && e < r.End()
  }

  lemma {:induction false} CutAllConcat(t: Table, u: Table, s: nat, e: nat)
    ensures CutAll(t + u, s, e) == CutAll(t, s, e) + CutAll(u, s, e)
  {
    if u == [] {
      assert t + u == t;
    } else {
      var front, last := u[..|u| - 1], u[|u| - 1];
      assert (t + u)[..|t + u| - 1] == t + front && (t + u)[|t + u| - 1] == last;
      CutAllConcat(t, front, s, e);
      ConcatAssoc(CutAll(t, s, e), CutAll(front, s, e), Cut(last, s, e));
    }
  }

  lemma {:induction false} CutAllMiss(t: Table, s: nat, e: nat)
    requires forall i :: 0 <= i < |t| ==> !Overlaps(t[i], s, e)
    ensures CutAll(t, s, e) == t
  {
    if t != [] {
      CutAllMiss(t[..|t| - 1], s, e);
      assert t == t[..|t| - 1] + [t[|t| - 1]];
    }
  }

  /** The state of the unmap loop: j entries of t have been cut to i entries, the rest follow unchanged. */
  ghost predicate CutSoFar(t: Table, s: nat, e: nat, j: nat, i: nat, u: Table) {
    && j <= |t| && i == |CutAll(t[..j], s, e)| && u == CutAll(t[..j], s, e) + t[j..]
    && (forall k :: 0 <= k < j ==> !Splits(t[k], s, e))
  }

  lemma CutSoFarStart(t: Table, s: nat, e: nat)
    ensures CutSoFar(t, s, e, 0, 0, t) && Free(t[..0], s, e)
  {
  }

  lemma CutSoFarAt(t: Table, s: nat, e: nat, j: nat, i: nat, u: Table)
    requires CutSoFar(t, s, e, j, i, u)
    ensures i < |u| ==> j < |t| && u[i] == t[j]
    ensures i >= |u| ==> j == |t| && t[..j] == t && u == AfterUnmap(t, s, e) && !NeedsSplit(t, s, e)
  {
  }

  lemma CutSoFarNext(t: Table, s: nat, e: nat, j: nat, i: nat, u: Table, v: Table)
    requires CutSoFar(t, s, e, j, i, u) && i < |u|
    requires j < |t| && !Splits(t[j], s, e)
    requires v == u[..i] + Cut(t[j], s, e) + u[i + 1..]
    ensures CutSoFar(t, s, e, j + 1, i + |Cut(t[j], s, e)|, v)
  {
    var done := CutAll(t[..j], s, e);
    assert t[..j + 1][..j] == t[..j];
    assert u[..i] == done;
    assert u[i + 1..] == t[j + 1..];
  }

  /** When the next entry has to be split, nothing before it was touched. */
  lemma CutSoFarSplit(t: Table, s: nat, e: nat, j: nat, i: nat, u: Table)
    requires CutSoFar(t, s, e, j, i, u) && i < |u| && Ordered(t)
    requires j < |t| && Splits(t[j], s, e)
    ensures i == j && u == t && NeedsSplit(t, s, e) && Free(t[..j], s, e) && !Free(t, s, e)
  {
    hide Ordered, CutAll;
    CutAllSplit(t, s, e, j);
    assert Free(t[..j], s, e);
    CutAllMiss(t[..j], s, e);
    assert t == t[..j] + t[j..];
  }

  /** Cutting removes exactly [s, e) from the page map, whatever the entries look like. */
  lemma {:induction false} CutAllAt(t: Table, s: nat, e: nat, a: nat)
    requires s < e
    ensures At(CutAll(t, s, e), a) == if s <= a < e then Unmapped else At(t, a)
  {
    if t != [] {
      var r := t[|t| - 1];
      CutAllAt(t[..|t| - 1], s, e, a);
      AtConcat(CutAll(t[..|t| - 1], s, e), Cut(r, s, e), a);
      CutAt(r, s, e, a);
    }
  }

  lemma CutAt(r: Region, s: nat, e: nat, a: nat)
    requires s < e
    ensures At(Cut(r, s, e), a) == if r.Holds(a) && !(s <= a < e) then Mapped(r.uid, r.prot) else Unmapped
  {
    if r.End() <= s || e <= r.addr {
      AtOne(r, a);
    } else {
      var left := r.(len := if r.addr < s then s - r.addr else 0);
      var right := r.(addr := e, len := if e < r.End() then r.End() - e else 0);
      AtOne(left, a);
      AtOne(right, a);
      AtConcat(if r.addr < s then [left] else [], if e < r.End() then [right] else [], a);
    }
  }

  lemma {:induction false} CutAllBelow(t: Table, s: nat, e: nat, b: nat)
    requires forall i :: 0 <= i < |t| ==> t[i].End() <= b
    ensures forall i :: 0 <= i < |CutAll(t, s, e)| ==> CutAll(t, s, e)[i].End() <= b
  {
    if t != [] {
      CutAllBelow(t[..|t| - 1], s, e, b);
    }
  }

  lemma AlignedDifference(a: nat, b: nat)
    requires Aligned(a) && Aligned(b) && b <= a
    ensures Aligned(a - b)
  {
  }

  lemma AlignedSum(a: nat, b: nat)
    requires Aligned(a) && Aligned(b)
    ensures Aligned(a + b)
  {
  }

  /** No page is cut in two: the ends are page aligned or every entry met goes as a whole. */
  ghost predicate CutsWhole(t: Table, s: nat, e: nat) {
    (Aligned(s) && Aligned(e)) || forall i :: 0 <= i < |t| && Overlaps(t[i], s, e) ==> Inside(t[i], s, e)
  }

  lemma CutWellFormed(r: Region, s: nat, e: nat)
    requires ProperRegion(r) && s < e && ((Aligned(s) && Aligned(e)) || !Overlaps(r, s, e) || Inside(r, s, e))
    ensures WellFormed(Cut(r, s, e))
    ensures forall i :: 0 <= i < |Cut(r, s, e)| ==> r.addr <= Cut(r, s, e)[i].addr
  {
    AlignedSum(r.addr, r.len);
    if Overlaps(r, s, e) && !Inside(r, s, e) {
      if r.addr < s { AlignedDifference(s, r.addr); }
      if e < r.End() { AlignedDifference(r.End(), e); }
    }
  }

  lemma WellFormedConcat(t: Table, u: Table, b: nat)
    requires WellFormed(t) && WellFormed(u)
    requires forall i :: 0 <= i < |t| ==> t[i].End() <= b
    requires forall i :: 0 <= i < |u| ==> b <= u[i].addr
    ensures WellFormed(t + u)
  {
  }

  lemma {:induction false} CutAllWellFormed(t: Table, s: nat, e: nat)
    requires WellFormed(t) && s < e && CutsWhole(t, s, e)
    ensures WellFormed(CutAll(t, s, e))
  {
    if t != [] {
      var front, r := t[..|t| - 1], t[|t| - 1];
      assert CutsWhole(front, s, e);
      CutAllWellFormed(front, s, e);
      CutAllBelow(front, s, e, r.addr);
      CutWellFormed(r, s, e);
      WellFormedConcat(CutAll(front, s, e), Cut(r, s, e), r.addr);
    }
  }

  lemma CutUnaligned(r: Region, s: nat, e: nat)
    requires ProperRegion(r) && s < e && !Aligned(s) && !Aligned(e) && Overlaps(r, s, e) && !Inside(r, s, e)
    ensures exists k :: 0 <= k < |Cut(r, s, e)| && !ProperRegion(Cut(r, s, e)[k])
  {
    var c := Cut(r, s, e);
    if r.addr < s {
      if Aligned(s - r.addr) { AlignedSum(r.addr, s - r.addr); }
      assert !ProperRegion(c[0]);
    } else {
      assert !ProperRegion(c[0]);
    }
  }

  lemma ImproperInside(a: Table, c: Table, b: Table, k: nat)
    requires k < |c| && !ProperRegion(c[k])
    ensures !WellFormed(a + c + b)
  {
    assert (a + c + b)[|a| + k] == c[k];
  }

  /** Cutting inside a page leaves an entry that is not page aligned. */
  lemma CutAllUnaligned(t: Table, s: nat, e: nat)
    requires WellFormed(t) && s < e && (Aligned(s) <==> Aligned(e)) && !CutsWhole(t, s, e)
    ensures !WellFormed(CutAll(t, s, e))
  {
    var i :| 0 <= i < |t| && Overlaps(t[i], s, e) && !Inside(t[i], s, e);
    var a, r, b := t[..i], t[i], t[i + 1..];
    assert ProperRegion(r);
    CutUnaligned(r, s, e);
    var k :| 0 <= k < |Cut(r, s, e)| && !ProperRegion(Cut(r, s, e)[k]);
    assert t == (a + [r]) + b;
    hide CutAll, Cut, WellFormed, ProperRegion, Ordered;
    CutAllConcat(a + [r], b, s, e);
    CutAllConcat(a, [r], s, e);
    CutAllOne(r, s, e);
    ImproperInside(CutAll(a, s, e), Cut(r, s, e), CutAll(b, s, e), k);
  }

  lemma CutAllOne(r: Region, s: nat, e: nat)
    ensures CutAll([r], s, e) == Cut(r, s, e)
  {
  }

  lemma SplitsAlone(t: Table, s: nat, e: nat, k: nat, i: nat)
    requires Ordered(t) && k < |t| && Splits(t[k], s, e) && i < |t| && i != k
    ensures !Overlaps(t[i], s, e)
  {
  }

  /** When the entry k loses its middle, the rest of the table is untouched. */
  lemma CutAllSplit(t: Table, s: nat, e: nat, k: nat)
    requires Ordered(t) && k < |t| && Splits(t[k], s, e)
    ensures CutAll(t, s, e) == t[..k] + Cut(t[k], s, e) + t[k + 1..]
    ensures forall i :: 0 <= i < |t| && i != k ==> !Overlaps(t[i], s, e)
  {
    var a, r, b := t[..k], t[k], t[k + 1..];
    forall i | 0 <= i < |t| && i != k ensures !Overlaps(t[i], s, e) {
      SplitsAlone(t, s, e, k, i);
    }
    CutAllMiss(a, s, e);
    CutAllMiss(b, s, e);
    assert t == (a + [r]) + b;
    CutAllConcat(a + [r], b, s, e);
    CutAllConcat(a, [r], s, e);
    CutAllOne(r, s, e);
  }

  // ---------------------------------------------------------------- inserting an entry

  /** The index at which the downward scan of the insertion stops. */
  function Slot(t: Table, addr: nat): (k: nat)
    ensures k <= |t|
    ensures k > 0 ==> t[k - 1].addr <= addr
    ensures forall i :: k <= i < |t| ==> addr < t[i].addr
  {
    if t == [] then 0
    else if t[|t| - 1].addr > addr then Slot(t[..|t| - 1], addr)
    else |t|
  }

  function Inserted(t: Table, r: Region): Table {
    var k := Slot(t, r.addr);
    t[..k] + [r] + t[k..]
  }

  /** u is t with r put at k, where the scan stops at k. */
  lemma InsertedIs(t: Table, r: Region, k: nat, u: Table)
    requires k <= |t| && |u| == |t| + 1
    requires k > 0 ==> t[k - 1].addr <= r.addr
    requires forall i :: k <= i < |t| ==> r.addr < t[i].addr
    requires u[k] == r
    requires forall i :: 0 <= i < k ==> u[i] == t[i]
    requires forall i :: k <= i < |t| ==> u[i + 1] == t[i]
    ensures u == Inserted(t, r)
  {
  }

  ghost predicate Free(t: Table, s: nat, e: nat) {
    forall i :: 0 <= i < |t| ==> !Overlaps(t[i], s, e)
  }

  lemma FreeStep(t: Table, s: nat, e: nat, j: nat)
    requires j < |t|
    ensures Free(t[..j + 1], s, e) <==> Free(t[..j], s, e) && !Overlaps(t[j], s, e)
  {
  }

  /** Cutting a range that some entry meets changes the table. */
  lemma CutAllChanges(t: Table, s: nat, e: nat)
    requires WellFormed(t) && s < e && !Free(t, s, e)
    ensures CutAll(t, s, e) != t
  {
    var k :| 0 <= k < |t| && Overlaps(t[k], s, e);
    var a := if s <= t[k].addr then t[k].addr else s;
    AtIndex(t, a, k);
    CutAllAt(t, s, e, a);
  }

  /** len bytes at c meet no entry. */
  ghost predicate Fits(t: Table, c: nat, len: nat) {
    Free(t, c, c + len)
  }

  lemma InsertedWellFormed(t: Table, r: Region)
    requires WellFormed(t) && ProperRegion(r) && Free(t, r.addr, r.End())
    ensures WellFormed(Inserted(t, r))
  {
    var k := Slot(t, r.addr);
    forall i | 0 <= i < k ensures t[i].End() <= r.addr {
      assert !Overlaps(t[i], r.addr, r.End());
      assert t[i].addr <= t[k - 1].addr;
    }
    forall i | k <= i < |t| ensures r.End() <= t[i].addr {
      assert !Overlaps(t[i], r.addr, r.End());
    }
    WellFormedConcat(t[..k], [r], r.addr);
    WellFormedConcat(t[..k] + [r], t[k..], r.End());
  }

  lemma InsertedAt(t: Table, r: Region, a: nat)
    requires Ordered(t) && Free(t, r.addr, r.End())
    ensures At(Inserted(t, r), a) == if r.Holds(a) then Mapped(r.uid, r.prot) else At(t, a)
  {
    hide At, Ordered;
    var k := Slot(t, r.addr);
    assert t == t[..k] + t[k..];
    AtConcat(t[..k], t[k..], a);
    AtConcat(t[..k] + [r], t[k..], a);
    AtConcat(t[..k], [r], a);
    AtOne(r, a);
    if r.Holds(a) {
      forall i | 0 <= i < |t| ensures !t[i].Holds(a) {
        assert !Overlaps(t[i], r.addr, r.End());
      }
      AtNowhere(t[k..], a);
    }
  }

  /** The page map gained exactly the addresses of r. */
  ghost predicate GainedExactly(t: Table, u: Table, r: Region) {
    forall a: nat :: At(u, a) == if r.Holds(a) then Mapped(r.uid, r.prot) else At(t, a)
  }

  lemma InsertedGains(t: Table, r: Region)
    requires Ordered(t) && Fits(t, r.addr, r.len)
    ensures GainedExactly(t, Inserted(t, r), r)
  {
    forall a: nat ensures At(Inserted(t, r), a) == if r.Holds(a) then Mapped(r.uid, r.prot) else At(t, a) {
      InsertedAt(t, r, a);
    }
  }

  /** Inserting right after entry i, once that entry has been trimmed to left. */
  lemma InsertedAfter(t: Table, i: nat, left: Region, right: Region)
    requires i < |t| && left.addr <= right.addr
    requires forall k :: i < k < |t| ==> right.addr < t[k].addr
    ensures Inserted(t[i := left], right) == t[..i] + ([left] + [right]) + t[i + 1..]
  {
    var v := t[i := left];
    assert v[..i + 1] == t[..i] + [left];
    assert v[i + 1..] == t[i + 1..];
    var k := Slot(v, right.addr);
    assert v[i].addr <= right.addr;
    assert k == i + 1;
    assert (t[..i] + [left]) + [right] == t[..i] + ([left] + [right]);
  }

  /** Trimming entry i to its left part and inserting its right part is the cut. */
  lemma SplitInserted(t: Table, i: nat, s: nat, e: nat)
    requires Ordered(t) && i < |t| && Splits(t[i], s, e)
    ensures Inserted(t[i := t[i].(len := s - t[i].addr)], t[i].(addr := e, len := t[i].End() - e)) == CutAll(t, s, e)
  {
    var left, right := t[i].(len := s - t[i].addr), t[i].(addr := e, len := t[i].End() - e);
    CutAllSplit(t, s, e, i);
    assert Cut(t[i], s, e) == [left] + [right];
    forall k | i < k < |t| ensures e < t[k].addr {
      assert t[i].End() <= t[k].addr;
    }
    InsertedAfter(t, i, left, right);
  }

  lemma InsertedUids(t: Table, r: Region)
    ensures Uids(Inserted(t, r)) == Uids(t) + (if r.uid >= 0 then {r.uid} else {})
  {
    var k, u := Slot(t, r.addr), Inserted(t, r);
    assert u[k] == r;
    forall x | x in Uids(t) ensures x in Uids(u) {
      var i :| 0 <= i < |t| && t[i].uid >= 0 && t[i].uid == x;
      assert t[i] == u[if i < k then i else i + 1];
    }
    forall x | x in Uids(u) ensures x in Uids(t) + (if r.uid >= 0 then {r.uid} else {}) {
      var i :| 0 <= i < |u| && u[i].uid >= 0 && u[i].uid == x;
      assert i != k ==> u[i] == t[if i < k then i else i - 1];
    }
  }

  // ---------------------------------------------------------------- changing protections

  predicate Inside(r: Region, s: nat, e: nat) { s <= r.addr && r.End() <= e }

  /** Only entries lying wholly in [s, e) take the new protection. */
  function Protected(t: Table, s: nat, e: nat, prot: bv32): Table {
    seq(|t|, i requires 0 <= i < |t| => if Inside(t[i], s, e) then t[i].(prot := prot) else t[i])
  }

  lemma ProtectedAt(t: Table, s: nat, e: nat, prot: bv32, a: nat)
    requires Ordered(t)
    ensures (At(Protected(t, s, e, prot), a) == Unmapped) == (At(t, a) == Unmapped)
    ensures At(t, a) != Unmapped ==> At(Protected(t, s, e, prot), a).uid == At(t, a).uid
  {
    if At(t, a) == Unmapped {
      ProtectedHole(t, s, e, prot, a);
    } else {
      var i := AtSome(t, a);
      ProtectedEntry(t, s, e, prot, a, i);
    }
  }

  lemma ProtectedHole(t: Table, s: nat, e: nat, prot: bv32, a: nat)
    requires Ordered(t) && At(t, a) == Unmapped
    ensures At(Protected(t, s, e, prot), a) == Unmapped
  {
    var u := Protected(t, s, e, prot);
    forall i | 0 <= i < |u| ensures !u[i].Holds(a) {
      if t[i].Holds(a) { AtIndex(t, a, i); }
    }
    AtNowhere(u, a);
  }

  lemma ProtectedEntry(t: Table, s: nat, e: nat, prot: bv32, a: nat, i: nat)
    requires Ordered(t) && i < |t| && t[i].Holds(a)
    ensures At(t, a) == Mapped(t[i].uid, t[i].prot)
    ensures At(Protected(t, s, e, prot), a) == Mapped(t[i].uid, if Inside(t[i], s, e) then prot else t[i].prot)
  {
    ProtectedOrdered(t, s, e, prot);
    AtIndex(t, a, i);
    AtIndex(Protected(t, s, e, prot), a, i);
  }

  lemma ProtectedOrdered(t: Table, s: nat, e: nat, prot: bv32)
    ensures Ordered(t) ==> Ordered(Protected(t, s, e, prot))
    ensures WellFormed(t) ==> WellFormed(Protected(t, s, e, prot))
  {
  }

  /** Every address of [s, e) that is mapped carries prot; addresses outside keep theirs. */
  ghost predicate PerPage(t: Table, u: Table, s: nat, e: nat, prot: bv32) {
    forall a: nat :: At(u, a) ==
      if s <= a < e && At(t, a) != Unmapped then Mapped(At(t, a).uid, prot) else At(t, a)
  }

  /** No entry of another protection straddles an end of [s, e). */
  ghost predicate NoStraddle(t: Table, s: nat, e: nat, prot: bv32) {
    forall i :: 0 <= i < |t| && Overlaps(t[i], s, e) && !Inside(t[i], s, e) ==> t[i].prot == prot
  }

  /** What has to hold of the table for n bytes from s to take prot page by page. */
  ghost predicate Trackable(t: Table, s: nat, n: nat, prot: bv32) {
    n == 0 ||
    if s + n < WORD then NoStraddle(t, s, s + n, prot)
    else forall i :: 0 <= i < |t| && Overlaps(t[i], s, s + n) ==> t[i].prot == prot
  }

  /**
   Protecting n bytes from s, whose end wraps in 32 bits, is tracked page by page exactly when no entry
   of another protection straddles an end or, for a wrapped end, when every entry met has it already.
   */
  lemma ProtectedPerPage(t: Table, s: nat, n: nat, prot: bv32)
    requires WellFormed(t) && s < WORD && n < WORD
    ensures PerPage(t, Protected(t, s, (s + n) % WORD, prot), s, s + n, prot) <==> Trackable(t, s, n, prot)
  {
    hide Protected, At, NoStraddle, WellFormed;
    if n == 0 {
      ProtectedNothing(t, s, s, prot);
    } else if s + n < WORD {
      ProtectedPerPageNoWrap(t, s, s + n, prot);
    } else {
      assert (s + n) % WORD == s + n - WORD;
      ProtectedNothing(t, s, s + n - WORD, prot);
      SamePerPage(t, s, s + n, prot);
    }
  }

  /** An end at or below the start records nothing. */
  lemma ProtectedNothing(t: Table, s: nat, e: nat, prot: bv32)
    requires WellFormed(t) && e <= s
    ensures Protected(t, s, e, prot) == t
  {
    forall i | 0 <= i < |t| ensures !Inside(t[i], s, e) {
      assert ProperRegion(t[i]);
    }
  }

  lemma SamePerPage(t: Table, s: nat, e: nat, prot: bv32)
    requires WellFormed(t) && s < e
    ensures PerPage(t, t, s, e, prot) <==> forall i :: 0 <= i < |t| && Overlaps(t[i], s, e) ==> t[i].prot == prot
  {
    if PerPage(t, t, s, e, prot) {
      forall i | 0 <= i < |t| && Overlaps(t[i], s, e) ensures t[i].prot == prot {
        AtIndex(t, if s <= t[i].addr then t[i].addr else s, i);
      }
    }
    if forall i :: 0 <= i < |t| && Overlaps(t[i], s, e) ==> t[i].prot == prot {
      forall a: nat | s <= a < e && At(t, a) != Unmapped ensures At(t, a).prot == prot {
        var i := AtSome(t, a);
        AtIndex(t, a, i);
      }
    }
  }

  /** Without a wrap protection is tracked page by page exactly when no entry of another protection straddles an end. */
  lemma ProtectedPerPageNoWrap(t: Table, s: nat, e: nat, prot: bv32)
    requires WellFormed(t) && s < e
    ensures PerPage(t, Protected(t, s, e, prot), s, e, prot) <==> NoStraddle(t, s, e, prot)
  {
    if PerPage(t, Protected(t, s, e, prot), s, e, prot) {
      forall i | 0 <= i < |t| && Overlaps(t[i], s, e) && !Inside(t[i], s, e) ensures t[i].prot == prot {
        ProtectedEntry(t, s, e, prot, if s <= t[i].addr then t[i].addr else s, i);
      }
    }
    if NoStraddle(t, s, e, prot) {
      forall a: nat ensures At(Protected(t, s, e, prot), a) ==
          if s <= a < e && At(t, a) != Unmapped then Mapped(At(t, a).uid, prot) else At(t, a)
      {
        NoStraddleAt(t, s, e, prot, a);
      }
    }
  }

  lemma NoStraddleAt(t: Table, s: nat, e: nat, prot: bv32, a: nat)
    requires Ordered(t) && NoStraddle(t, s, e, prot)
    ensures At(Protected(t, s, e, prot), a) ==
        if s <= a < e && At(t, a) != Unmapped then Mapped(At(t, a).uid, prot) else At(t, a)
  {
    if At(t, a) == Unmapped {
      ProtectedHole(t, s, e, prot, a);
    } else {
      var i := AtSome(t, a);
      ProtectedEntry(t, s, e, prot, a, i);
    }
  }

  // ---------------------------------------------------------------- when unmapping is exact

  /** The table after an unmap of [s, e): a split is given up when the table is full. */
  ghost function AfterUnmap(t: Table, s: nat, e: nat): Table {
    if NeedsSplit(t, s, e) && |t| == MAX_REGIONS then t else CutAll(t, s, e)
  }

  /** The page map lost exactly [s, e). */
  ghost predicate LostExactly(t: Table, u: Table, s: nat, e: nat) {
    forall a: nat :: At(u, a) == if s <= a < e then Unmapped else At(t, a)
  }

  /**
   Unmapping n bytes from s, whose end wraps in 32 bits, removes exactly that range if and
   only if either nothing is mapped from s on, or the end does not wrap and no split meets a
   full table.
   */
  lemma UnmapExact(t: Table, s: nat, n: nat)
    requires WellFormed(t) && s < WORD && 0 < n < WORD
    ensures LostExactly(t, AfterUnmap(t, s, (s + n) % WORD), s, s + n) <==>
        || (forall i :: 0 <= i < |t| ==> t[i].End() <= s)
        || (s + n < WORD && !(NeedsSplit(t, s, s + n) && |t| == MAX_REGIONS))
  {
    hide AfterUnmap, NeedsSplit, At;
    if forall i :: 0 <= i < |t| ==> t[i].End() <= s {
      UnmapBeyond(t, s, (s + n) % WORD, s + n);
    } else if s + n < WORD {
      assert (s + n) % WORD == s + n;
      UnmapExactNoWrap(t, s, s + n);
    } else {
      var e := s + n - WORD;
      assert (s + n) % WORD == e;
      var i :| 0 <= i < |t| && s < t[i].End();
      var a := if s <= t[i].addr then t[i].addr else s;
      WrappedCutKeeps(t, s, e, i, a);
      assert s <= a < s + n;
    }
  }

  lemma UnmapBeyond(t: Table, s: nat, e: nat, end: nat)
    requires forall i :: 0 <= i < |t| ==> t[i].End() <= s
    ensures LostExactly(t, AfterUnmap(t, s, e), s, end)
  {
    CutAllMiss(t, s, e);
    forall a: nat ensures At(t, a) == if s <= a < end then Unmapped else At(t, a) {
      if s <= a { AtNowhere(t, a); }
    }
  }

  lemma UnmapExactNoWrap(t: Table, s: nat, e: nat)
    requires WellFormed(t) && s < e
    ensures LostExactly(t, AfterUnmap(t, s, e), s, e) <==> !(NeedsSplit(t, s, e) && |t| == MAX_REGIONS)
  {
    if NeedsSplit(t, s, e) && |t| == MAX_REGIONS {
      var i :| 0 <= i < |t| && Splits(t[i], s, e);
      AtIndex(t, s, i);
    } else {
      forall a: nat ensures At(CutAll(t, s, e), a) == if s <= a < e then Unmapped else At(t, a) {
        CutAllAt(t, s, e, a);
      }
    }
  }

  /** A wrapped end never removes anything at or above s. */
  lemma WrappedCutKeeps(t: Table, s: nat, e: nat, i: nat, a: nat)
    requires WellFormed(t) && e <= s && i < |t| && t[i].Holds(a) && s <= a
    ensures At(AfterUnmap(t, s, e), a) != Unmapped
  {
    AtIndex(t, a, i);
    if k :| 0 <= k < |t| && Overlaps(t[k], s, e) {
      WrappedSplitKeeps(t, s, e, k, i, a);
    } else {
      CutAllMiss(t, s, e);
    }
  }

  lemma WrappedSplitKeeps(t: Table, s: nat, e: nat, k: nat, i: nat, a: nat)
    requires Ordered(t) && e <= s <= a && i < |t| && t[i].Holds(a) && k < |t| && Overlaps(t[k], s, e)
    ensures At(CutAll(t, s, e), a) != Unmapped
  {
    hide At, Cut, CutAll;
    CutAllSplit(t, s, e, k);
    var front, mid, back := t[..k], Cut(t[k], s, e), t[k + 1..];
    AtConcat(front + mid, back, a);
    AtConcat(front, mid, a);
    if i > k {
      OrderedSuffix(t, k + 1);
      AtIndex(back, a, i - k - 1);
    } else {
      assert i == k;
      WrappedCutAt(t[k], s, e, a);
    }
  }

  lemma OrderedSuffix(t: Table, k: nat)
    requires Ordered(t) && k <= |t|
    ensures Ordered(t[k..])
  {
  }

  lemma WrappedCutAt(r: Region, s: nat, e: nat, a: nat)
    requires e <= s <= a && r.Holds(a)
    ensures At(Cut(r, s, e), a) != Unmapped
  {
  }

  // ---------------------------------------------------------------- asking whether a range is mapped

  ghost predicate AllMapped(t: Table, s: nat, e: nat) {
    forall a: nat :: s <= a < e ==> At(t, a) != Unmapped
  }

  /** The end of len bytes from addr, rounded up to a page without wrapping. */
  function TrueEnd(addr: nat, len: nat): nat {
    (addr + len + PAGE - 1) / PAGE * PAGE
  }

  /**
   Walking up to the wrapped end answers for the true end exactly when the end does not wrap, or
   when the wrapped end still lies above addr, in addr's own page, and that page is not mapped.
   */
  lemma MappedExact(t: Table, addr: nat, len: nat)
    requires WellFormed(t) && addr < WORD && len < WORD
    ensures (AllMapped(t, addr, PageAlign((addr + len) % WORD)) <==> AllMapped(t, addr, TrueEnd(addr, len))) <==>
        || TrueEnd(addr, len) < WORD
        || (addr < PageAlign((addr + len) % WORD) && At(t, addr) == Unmapped)
  {
    var e, top := PageAlign((addr + len) % WORD), TrueEnd(addr, len);
    if top < WORD {
      assert e == top;
    } else {
      TopUnmapped(t);
      assert !AllMapped(t, addr, top);
      WrappedEnd(addr, len);
      if addr < e {
        OnePage(t, addr, e);
      }
    }
  }

  /** For a page-aligned address the walk is right exactly when the end does not wrap. */
  lemma MappedExactAligned(t: Table, addr: nat, len: nat)
    requires WellFormed(t) && addr < WORD && len < WORD && Aligned(addr)
    ensures (AllMapped(t, addr, PageAlign((addr + len) % WORD)) <==> AllMapped(t, addr, TrueEnd(addr, len))) <==>
        TrueEnd(addr, len) < WORD
  {
    MappedExact(t, addr, len);
    if TrueEnd(addr, len) >= WORD {
      WrappedEnd(addr, len);
    }
  }

  lemma TopUnmapped(t: Table)
    requires WellFormed(t)
    ensures At(t, WORD - 1) == Unmapped
  {
    forall i | 0 <= i < |t| ensures !t[i].Holds(WORD - 1) {
      assert ProperRegion(t[i]);
    }
    AtNowhere(t, WORD - 1);
  }

  /** A wrapped end never passes the end of the page that addr is in. */
  lemma WrappedEnd(addr: nat, len: nat)
    requires addr < WORD && len < WORD && TrueEnd(addr, len) >= WORD
    ensures PageAlign((addr + len) % WORD) <= (addr + PAGE - 1) / PAGE * PAGE
    ensures Aligned(addr) ==> PageAlign((addr + len) % WORD) <= addr
  {
  }

  /** All of one page is mapped or none of it. */
  lemma OnePage(t: Table, addr: nat, e: nat)
    requires WellFormed(t) && addr < e <= (addr + PAGE - 1) / PAGE * PAGE
    ensures AllMapped(t, addr, e) <==> At(t, addr) != Unmapped
  {
    if At(t, addr) != Unmapped {
      var i := AtSome(t, addr);
      assert ProperRegion(t[i]);
      PageInside(t[i], addr, e);
      forall a: nat | addr <= a < e ensures At(t, a) != Unmapped {
        AtIndex(t, a, i);
      }
    }
  }

  lemma PageInside(r: Region, addr: nat, e: nat)
    requires ProperRegion(r) && r.Holds(addr) && addr < e <= (addr + PAGE - 1) / PAGE * PAGE
    ensures e <= r.End()
  {
    AlignedSum(r.addr, r.len);
  }

  // ---------------------------------------------------------------- resizing one entry

  ghost function Resized(t: Table, k: nat, n: nat): Table
    requires k < |t|
  {
    t[k := t[k].(len := n)]
  }

  /** Giving entry k the length n changes the page map only between the two ends. */
  lemma ResizedAt(t: Table, k: nat, n: nat, a: nat)
    requires Ordered(t) && k < |t| && Ordered(Resized(t, k, n))
    ensures At(Resized(t, k, n), a) ==
        if t[k].addr + n <= a < t[k].End() then Unmapped
        else if t[k].End() <= a < t[k].addr + n then Mapped(t[k].uid, t[k].prot)
        else At(t, a)
  {
    var u := Resized(t, k, n);
    if u[k].Holds(a) {
      AtIndex(u, a, k);
      if t[k].Holds(a) { AtIndex(t, a, k); }
    } else if t[k].Holds(a) {
      forall i | 0 <= i < |u| ensures !u[i].Holds(a) {
        assert i < k ==> t[i].End() <= t[k].addr;
        assert i > k ==> t[k].End() <= t[i].addr;
      }
      AtNowhere(u, a);
    } else if i :| 0 <= i < |t| && t[i].Holds(a) {
      AtIndex(t, a, i);
      AtIndex(u, a, i);
    } else {
      AtNowhere(t, a);
      AtNowhere(u, a);
    }
  }

  lemma ResizedWellFormed(t: Table, k: nat, n: nat)
    requires WellFormed(t) && k < |t| && Aligned(n)
    requires n <= t[k].len || t[k].addr + n >= WORD || Free(t, t[k].End(), t[k].addr + n)
    ensures WellFormed(Resized(t, k, n)) <==> 0 < n && t[k].addr + n < WORD
  {
    var u := Resized(t, k, n);
    if 0 < n && t[k].addr + n < WORD {
      forall i | k < i < |t| ensures u[k].End() <= t[i].addr {
        assert t[k].End() <= t[i].addr;
        assert ProperRegion(t[i]);
      }
      forall i, j | 0 <= i < j < |u| ensures u[i].End() <= u[j].addr {
        assert t[i].End() <= t[j].addr;
      }
    } else {
      assert !ProperRegion(u[k]);
    }
  }

  // ---------------------------------------------------------------- mapping, then protecting or unmapping

  /** A page-aligned range that does not run past the top ends where its rounded length says. */
  lemma PageEnd(a: nat, len: nat)
    requires Aligned(a) && a + len + PAGE <= WORD
    ensures PageAlign((a + len) % WORD) == a + PageAlign(len) < WORD
  {
  }

  lemma InsertedIndex(t: Table, r: Region)
    ensures Slot(t, r.addr) < |Inserted(t, r)| && Inserted(t, r)[Slot(t, r.addr)] == r
    ensures forall i :: 0 <= i < Slot(t, r.addr) ==> Inserted(t, r)[i] == t[i]
    ensures forall i :: Slot(t, r.addr) <= i < |t| ==> Inserted(t, r)[i + 1] == t[i]
    ensures |Inserted(t, r)| == |t| + 1
  {
    hide Slot;
    var k := Slot(t, r.addr);
    InsertedAtIndex(t[..k], r, t[k..]);
    forall i | k <= i < |t| ensures Inserted(t, r)[i + 1] == t[i] {
      assert t[k..][i - k] == t[i];
    }
  }

  lemma InsertedAtIndex(a: Table, r: Region, b: Table)
    ensures (a + [r] + b)[|a|] == r
    ensures forall i :: 0 <= i < |a| ==> (a + [r] + b)[i] == a[i]
    ensures forall i :: 0 <= i < |b| ==> (a + [r] + b)[|a| + 1 + i] == b[i]
  {
  }

  /** Protecting exactly the range just gained replaces the protection gained. */
  lemma GainedProtected(t: Table, r: Region, prot: bv32)
    requires WellFormed(t) && ProperRegion(r) && Fits(t, r.addr, r.len)
    ensures GainedExactly(t, Protected(Inserted(t, r), r.addr, r.End(), prot), r.(prot := prot))
  {
    hide At, Inserted;
    var u := Inserted(t, r);
    InsertedWellFormed(t, r);
    InsertedIndex(t, r);
    InsertedGains(t, r);
    var k := Slot(t, r.addr);
    forall i | 0 <= i < |u| && Overlaps(u[i], r.addr, r.End()) ensures Inside(u[i], r.addr, r.End()) {
      assert u[k] == r;
    }
    ProtectedPerPageNoWrap(u, r.addr, r.End(), prot);
  }

  lemma InsertedNeedsSplit(t: Table, r: Region, s: nat, e: nat)
    requires !Overlaps(r, s, e)
    ensures NeedsSplit(Inserted(t, r), s, e) <==> NeedsSplit(t, s, e)
  {
    hide Inserted;
    var u, k := Inserted(t, r), Slot(t, r.addr);
    InsertedIndex(t, r);
    if i :| 0 <= i < |t| && Splits(t[i], s, e) {
      assert Splits(u[if i < k then i else i + 1], s, e);
    }
    if i :| 0 <= i < |u| && Splits(u[i], s, e) {
      assert i != k;
      var j := if i < k then i else i - 1;
      assert u[i] == t[j];
    }
  }

  lemma ProtectedNeedsSplit(t: Table, s: nat, e: nat, prot: bv32, s': nat, e': nat)
    ensures NeedsSplit(Protected(t, s, e, prot), s', e') <==> NeedsSplit(t, s', e')
  {
    var u := Protected(t, s, e, prot);
    if i :| 0 <= i < |t| && Splits(t[i], s', e') {
      assert Splits(u[i], s', e');
    }
    if i :| 0 <= i < |u| && Splits(u[i], s', e') {
      assert Splits(t[i], s', e');
    }
  }

  lemma CutAllAround(a: Table, r: Region, b: Table)
    requires r.len > 0 && Free(a, r.addr, r.End()) && Free(b, r.addr, r.End())
    ensures CutAll(a + [r] + b, r.addr, r.End()) == a + b
  {
    hide CutAll;
    CutAllMiss(a, r.addr, r.End());
    CutAllMiss(b, r.addr, r.End());
    CutAllConcat(a + [r], b, r.addr, r.End());
    CutAllConcat(a, [r], r.addr, r.End());
    CutAllOne(r, r.addr, r.End());
    assert Cut(r, r.addr, r.End()) == [];
    assert a + [] == a;
  }

  lemma FreeParts(t: Table, k: nat, s: nat, e: nat)
    requires Free(t, s, e) && k <= |t|
    ensures Free(t[..k], s, e) && Free(t[k..], s, e)
  {
  }

  /** Unmapping exactly what was just inserted gives the table back. */
  lemma InsertedThenCut(t: Table, r: Region)
    requires WellFormed(t) && ProperRegion(r) && Fits(t, r.addr, r.len)
    ensures AfterUnmap(Inserted(t, r), r.addr, r.End()) == t
  {
    InsertedNeedsSplitSelf(t, r);
    var k := Slot(t, r.addr);
    FreeParts(t, k, r.addr, r.End());
    hide CutAll, Slot, NeedsSplit, Ordered, Free, WellFormed;
    CutAllAround(t[..k], r, t[k..]);
    assert t == t[..k] + t[k..];
  }

  lemma InsertedNeedsSplitSelf(t: Table, r: Region)
    requires WellFormed(t) && ProperRegion(r) && Fits(t, r.addr, r.len)
    ensures !NeedsSplit(Inserted(t, r), r.addr, r.End())
  {
  }

  // ---------------------------------------------------------------- where the code falls short

  const SAMPLE: Table := [Region(0x8100_0000, 0x3000, -1, 3)]

  lemma SampleWellFormed()
    ensures WellFormed(SAMPLE)
  {
  }

  /** An unmap whose end wraps past the top of the address space leaves its range mapped. */
  lemma UnmapWrapWitness()
    ensures !LostExactly(SAMPLE, AfterUnmap(SAMPLE, 0x8100_1000, 0x8100_0000), 0x8100_1000, 0x1_8100_0000)
  {
    SampleWellFormed();
    UnmapExact(SAMPLE, 0x8100_1000, 0xFFFF_F000);
    assert SAMPLE[0].End() > 0x8100_1000;
  }

  /** A range whose end wraps to zero counts as mapped although nothing is. */
  lemma MappedWrapWitness()
    ensures AllMapped([], 0x8100_0000, PageAlign((0x8100_0000 + 0x7F00_0000) % WORD))
    ensures !AllMapped([], 0x8100_0000, TrueEnd(0x8100_0000, 0x7F00_0000))
  {
    assert At([], 0x8100_0000) == Unmapped;
  }

  /** Protecting one page in the middle of an entry records nothing. */
  lemma ProtectStraddleWitness()
    ensures !PerPage(SAMPLE, Protected(SAMPLE, 0x8100_1000, 0x8100_2000, 1), 0x8100_1000, 0x8100_2000, 1)
  {
    SampleWellFormed();
    ProtectedPerPage(SAMPLE, 0x8100_1000, 0x1000, 1);
    var r := SAMPLE[0];
    assert r.prot != 1 && Overlaps(r, 0x8100_1000, 0x8100_2000) && !Inside(r, 0x8100_1000, 0x8100_2000);
  }

  /** Protecting up to the top of the address space records nothing, although the entry lies wholly inside. */
  lemma ProtectWrapWitness()
    ensures Inside(SAMPLE[0], 0x8100_0000, 0x8100_0000 + 0x7F00_0000)
    ensures !PerPage(SAMPLE, Protected(SAMPLE, 0x8100_0000, (0x8100_0000 + 0x7F00_0000) % WORD, 1),
                     0x8100_0000, 0x8100_0000 + 0x7F00_0000, 1)
  {
    SampleWellFormed();
    ProtectedPerPage(SAMPLE, 0x8100_0000, 0x7F00_0000, 1);
    assert SAMPLE[0].prot != 1 && Overlaps(SAMPLE[0], 0x8100_0000, 0x1_0000_0000);
  }

  /** A full table of entries with a page between any two. */
  function FullTable(): Table { seq(MAX_REGIONS, i requires 0 <= i => Region(0x8100_0000 + i * 0x4000, 0x3000, -1, 3)) }

  /** Taking a page out of the middle of an entry of a full table removes nothing. */
  lemma UnmapFullWitness()
    ensures WellFormed(FullTable())
    ensures !LostExactly(FullTable(), AfterUnmap(FullTable(), 0x8100_1000, 0x8100_2000), 0x8100_1000, 0x8100_2000)
  {
    var t := FullTable();
    assert Splits(t[0], 0x8100_1000, 0x8100_2000);
    forall i | 0 <= i < |t| ensures ProperRegion(t[i]) {
    }
    UnmapExactNoWrap(t, 0x8100_1000, 0x8100_2000);
  }

  /** A new length above the last page rounds to zero, and the shrink leaves an empty entry. */
  lemma ResizeZeroWitness()
    ensures !WellFormed(Resized(SAMPLE, 0, PageAlign(0xFFFF_F001)))
  {
    SampleWellFormed();
    ResizedWellFormed(SAMPLE, 0, 0);
  }
}
