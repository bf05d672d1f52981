/**
 Kernel memory reservations. The ledger replays a log of the reservations made and
 freed, and rejects a log that frees a reservation that is not live or reserves a
 range that is still taken.
 */
module Reservations {
  import opened Regions

  datatype Event = Reserved(uid: int, span: Span) | Freed(uid: int)

  datatype Span = Span(base: nat, len: nat) {
    predicate Covers(r: Region) { base <= r.addr && r.End() <= base + len }

    predicate Apart(other: Span) { base + len <= other.base || other.base + other.len <= base }
  }

  datatype Ledger = Broken | Live(spans: map<int, Span>)

  /** The reservations live after a log, or Broken when some event of it is illegal. */
  ghost function Replay(log: seq<Event>): Ledger {
    if log == [] then Live(map[])
    else Post(Replay(log[..|log| - 1]), log[|log| - 1])
  }

  ghost function Post(before: Ledger, event: Event): Ledger {
    if before.Broken? then Broken
    else
      match event
      case Reserved(uid, span) =>
        if uid >= 0 && uid !in before.spans && (forall u :: u in before.spans ==> span.Apart(before.spans[u]))
        then Live(before.spans[uid := span]) else Broken
      case Freed(uid) =>
        if uid in before.spans then Live(before.spans - {uid}) else Broken
  }

  /** The live reservations are exactly those the table refers to, and each entry lies inside its own. */
  ghost predicate Accounts(t: Table, log: seq<Event>) {
    var ledger := Replay(log);
    ledger.Live? && ledger.spans.Keys == Uids(t)
    && forall i :: 0 <= i < |t| && t[i].uid >= 0 ==> ledger.spans[t[i].uid].Covers(t[i])
  }

  lemma ReplayAppend(log: seq<Event>, event: Event)
    ensures Replay(log + [event]) == Post(Replay(log), event)
  {
  }

  /** Reserving and giving straight back leaves the ledger as it was. */
  lemma ReserveThenFree(log: seq<Event>, uid: int, span: Span)
    requires Replay(log).Live? && Replay(log + [Reserved(uid, span)]).Live?
    ensures Replay(log + [Reserved(uid, span)] + [Freed(uid)]) == Replay(log)
  {
  }

  lemma AccountsInserted(t: Table, log: seq<Event>, r: Region, span: Span)
    requires Accounts(t, log) && span.Covers(r)
    requires Replay(log + [Reserved(r.uid, span)]).Live?
    ensures Accounts(Inserted(t, r), log + [Reserved(r.uid, span)])
  {
    ReplayAppend(log, Reserved(r.uid, span));
    InsertedUids(t, r);
    var k, u := Slot(t, r.addr), Inserted(t, r);
    forall i | 0 <= i < |u| && u[i].uid >= 0
      ensures Replay(log + [Reserved(r.uid, span)]).spans[u[i].uid].Covers(u[i])
    {
      if i != k {
        var j := if i < k then i else i - 1;
        assert u[i] == t[j];
        assert t[j].uid in Uids(t);
      }
    }
  }

  /** p is a fragment of r. */
  predicate PieceOf(p: Region, r: Region) {
    p.uid == r.uid && p.prot == r.prot && r.addr <= p.addr && p.End() <= r.End()
  }

  lemma CutPieces(r: Region, s: nat, e: nat)
    ensures forall i :: 0 <= i < |Cut(r, s, e)| ==> PieceOf(Cut(r, s, e)[i], r)
  {
  }

  lemma {:induction false} CutAllPieces(t: Table, s: nat, e: nat, i: nat) returns (j: nat)
    requires i < |CutAll(t, s, e)|
    ensures j < |t| && PieceOf(CutAll(t, s, e)[i], t[j])
  {
    var front := t[..|t| - 1];
    if i < |CutAll(front, s, e)| {
      j := CutAllPieces(front, s, e, i);
    } else {
      j := |t| - 1;
      CutPieces(t[j], s, e);
    }
  }

  /** Replacing one entry by fragments of it keeps the accounts as long as some entry keeps the uid. */
  lemma AccountsReplaced(a: Table, r: Region, c: Table, b: Table, log: seq<Event>)
    requires Accounts(a + [r] + b, log)
    requires forall i :: 0 <= i < |c| ==> PieceOf(c[i], r)
    requires r.uid < 0 || c != [] || r.uid in Uids(a + b)
    ensures Accounts(a + c + b, log)
  {
    UidsReplaced(a, r, c, b);
    CoversReplaced(a, r, c, b, Replay(log).spans);
  }

  lemma AccountsRemoved(a: Table, r: Region, b: Table, log: seq<Event>)
    requires Accounts(a + [r] + b, log)
    requires r.uid >= 0 && r.uid !in Uids(a + b)
    ensures Accounts(a + b, log + [Freed(r.uid)])
  {
    UidsReplaced(a, r, [], b);
    CoversReplaced(a, r, [], b, Replay(log).spans);
    assert a + [] + b == a + b;
    ReplayAppend(log, Freed(r.uid));
    var t := a + b;
    forall i | 0 <= i < |t| && t[i].uid >= 0
      ensures t[i].uid != r.uid && Replay(log + [Freed(r.uid)]).spans[t[i].uid].Covers(t[i])
    {
      assert t[i].uid in Uids(t);
    }
  }

  lemma UidsReplaced(a: Table, r: Region, c: Table, b: Table)
    requires forall i :: 0 <= i < |c| ==> PieceOf(c[i], r)
    ensures Uids(a + c + b) == Uids(a + b) + (if r.uid >= 0 && c != [] then {r.uid} else {})
    ensures Uids(a + [r] + b) == Uids(a + b) + (if r.uid >= 0 then {r.uid} else {})
  {
    UidsMiddle(a, c, b);
    UidsMiddle(a, [r], b);
    assert c != [] && r.uid >= 0 ==> c[0].uid in Uids(c);
    assert r.uid >= 0 ==> [r][0].uid in Uids([r]);
  }

  lemma UidsMiddle(a: Table, c: Table, b: Table)
    ensures Uids(a + c + b) == Uids(a + b) + Uids(c)
  {
    UidsConcat(a + c, b);
    UidsConcat(a, c);
    UidsConcat(a, b);
  }

  lemma UidsConcat(a: Table, b: Table)
    ensures Uids(a + b) == Uids(a) + Uids(b)
  {
    forall x | x in Uids(a) ensures x in Uids(a + b) {
      var i :| 0 <= i < |a| && a[i].uid >= 0 && a[i].uid == x;
      assert (a + b)[i].uid == x;
    }
    forall x | x in Uids(b) ensures x in Uids(a + b) {
      var i :| 0 <= i < |b| && b[i].uid >= 0 && b[i].uid == x;
      assert (a + b)[|a| + i].uid == x;
    }
  }

  lemma CoversReplaced(a: Table, r: Region, c: Table, b: Table, spans: map<int, Span>)
    requires Uids(a + [r] + b) <= spans.Keys
    requires forall i :: 0 <= i < |c| ==> PieceOf(c[i], r)
    requires forall i :: 0 <= i < |a + [r] + b| && (a + [r] + b)[i].uid >= 0 ==>
        spans[(a + [r] + b)[i].uid].Covers((a + [r] + b)[i])
    ensures forall i :: 0 <= i < |a + c + b| && (a + c + b)[i].uid >= 0 ==>
        (a + c + b)[i].uid in spans && spans[(a + c + b)[i].uid].Covers((a + c + b)[i])
  {
    var t, u := a + [r] + b, a + c + b;
    forall i | 0 <= i < |u| && u[i].uid >= 0 ensures u[i].uid in spans && spans[u[i].uid].Covers(u[i]) {
      var j := if i < |a| then i else if i < |a| + |c| then |a| else i - |c| + 1;
      assert PieceOf(u[i], t[j]);
      assert t[j].uid in Uids(t);
    }
  }

  // ---------------------------------------------------------------- what a legal log says

  lemma {:induction false} PrefixLive(log: seq<Event>, n: nat)
    requires n <= |log| && Replay(log).Live?
    ensures Replay(log[..n]).Live?
    decreases |log|
  {
    if n < |log| {
      var front := log[..|log| - 1];
      assert front[..n] == log[..n];
      PrefixLive(front, n);
    } else {
      assert log[..n] == log;
    }
  }

  lemma {:induction false} StaysFree(log: seq<Event>, i: nat, j: nat, uid: int)
    requires i <= j <= |log| && Replay(log).Live? && Replay(log[..i]).Live? && uid !in Replay(log[..i]).spans
    requires forall k :: i <= k < j ==> !(log[k].Reserved? && log[k].uid == uid)
    ensures Replay(log[..j]).Live? && uid !in Replay(log[..j]).spans
  {
    PrefixLive(log, j);
    if i < j {
      StaysFree(log, i, j - 1, uid);
      assert log[..j][..j - 1] == log[..j - 1];
    }
  }

  /** A reservation is freed only after it was made, and at most once: between two frees it was made again. */
  lemma FreedOncePerReservation(log: seq<Event>, from: nat, j: nat)
    requires Replay(log).Live? && from <= j < |log| && log[j].Freed?
    requires from == 0 || log[from - 1] == log[j]
    ensures exists k :: from <= k < j && log[k].Reserved? && log[k].uid == log[j].uid
  {
    var uid := log[j].uid;
    PrefixLive(log, j + 1);
    assert log[..j + 1][..j] == log[..j];
    PrefixLive(log, from);
    if from > 0 {
      PrefixLive(log, from - 1);
      assert log[..from][..from - 1] == log[..from - 1];
    } else {
      assert log[..0] == [];
    }
    if forall k :: from <= k < j ==> !(log[k].Reserved? && log[k].uid == uid) {
      StaysFree(log, from, j, uid);
    }
  }
}
