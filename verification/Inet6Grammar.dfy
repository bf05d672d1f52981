/**
 The texts of IPv6 addresses described without the loops: which text is printed for every address,
 and what the parser makes of every text, put together from its pieces between the colons.
 */
module Inet6Grammar {
  import opened Basics
  import opened Inet6Text

  const LOWER := "0123456789abcdef"
  const UPPER := "0123456789ABCDEF"

  /** A digit stands for its place in the table of either case, and nothing else is a digit. */
  lemma DigitTable(c: char, d: int)
    requires 0 <= d < 16
    ensures DigitValue(c) == d <==> c == LOWER[d] || c == UPPER[d]
    ensures DigitValue(c) == -1 <==> c !in LOWER && c !in UPPER
  {
    assert DigitValue(c) >= 0 ==> LOWER[DigitValue(c)] == c || UPPER[DigitValue(c)] == c;
  }

  // ---------------------------------------------------------------- what is printed

  /** Groups in hexadecimal with a colon between any two. */
  function Joined(ws: seq<Group>): string {
    if ws == [] then "" else if |ws| == 1 then Hex(ws[0]) else Hex(ws[0]) + ":" + Joined(ws[1..])
  }

  /** The hexadecimal digits of the text, which may be none, continue the number start. */
  predicate HexText(p: string) { forall i :: 0 <= i < |p| ==> DigitValue(p[i]) >= 0 }

  function Value(start: nat, p: string): nat
    requires HexText(p)
    decreases |p|
  {
    if p == "" then start else Value(start * 16 + DigitValue(p[0]), p[1..])
  }

  lemma {:induction false} ValueSnoc(start: nat, p: string, c: char)
    requires HexText(p) && DigitValue(c) >= 0
    ensures Value(start, p + [c]) == Value(start, p) * 16 + DigitValue(c)
    decreases |p|
  {
    if p == "" {
      assert [c][1..] == "";
    } else {
      assert (p + [c])[0] == p[0] && (p + [c])[1..] == p[1..] + [c];
      ValueSnoc(start * 16 + DigitValue(p[0]), p[1..], c);
    }
  }

  lemma {:induction false} HexLower(w: nat)
    ensures forall i :: 0 <= i < |Hex(w)| ==> Hex(w)[i] in LOWER
  {
    assert HexDigit(w % 16) == LOWER[w % 16];
    if w >= 16 {
      HexLower(w / 16);
    }
  }

  lemma {:induction false} HexValue(w: nat)
    ensures Hex(w) != "" && (w > 0 ==> Hex(w)[0] != '0') && HexText(Hex(w)) && Value(0, Hex(w)) == w
  {
    HexDigitValue(w % 16);
    if w < 16 {
      assert Hex(w)[1..] == "";
    } else {
      HexValue(w / 16);
      ValueSnoc(0, Hex(w / 16), HexDigit(w % 16));
    }
  }

  /** A group is written in lower case without leading zeros. */
  lemma HexExact(w: nat)
    ensures forall i :: 0 <= i < |Hex(w)| ==> Hex(w)[i] in LOWER
    ensures Hex(w) != "" && (w > 0 ==> Hex(w)[0] != '0') && HexText(Hex(w)) && Value(0, Hex(w)) == w
  {
    hide Hex;
    HexLower(w);
    HexValue(w);
  }

  /** Behind the elided run, or without one. */
  lemma {:induction false} FromTail(ws: seq<Group>, r: Run, i: nat, v: string)
    requires |ws| == 8 && i < 8 && (r.Run? ==> r.base + r.len <= i) && !Embeds(ws, r, 6)
    ensures From(ws, r, i, v) == Colon(i) + Joined(ws[i..])
    decreases 8 - i
  {
    hide Hex;
    assert ws[i..][1..] == ws[i + 1..];
    if i < 7 {
      FromTail(ws, r, i + 1, v);
      assert Colon(i) + Hex(ws[i]) + (":" + Joined(ws[i + 1..])) == Colon(i) + (Hex(ws[i]) + ":" + Joined(ws[i + 1..]));
    } else {
      assert From(ws, r, 8, v) == "";
      assert Colon(i) + Hex(ws[i]) + "" == Colon(i) + Hex(ws[i]);
    }
  }

  /** Inside the elided run. */
  lemma {:induction false} FromRun(ws: seq<Group>, r: Run, i: nat, v: string)
    requires |ws| == 8 && r.Run? && r.base < i <= r.base + r.len <= 8
    ensures From(ws, r, i, v) == From(ws, r, r.base + r.len, v)
    decreases 8 - i
  {
    if i < r.base + r.len {
      FromRun(ws, r, i + 1, v);
    }
  }

  lemma FromRunStart(ws: seq<Group>, r: Run, v: string)
    requires |ws| == 8 && r.Run? && r.len >= 1 && r.base + r.len <= 8
    ensures From(ws, r, r.base, v) == ":" + From(ws, r, r.base + r.len, v)
  {
    FromRun(ws, r, r.base + 1, v);
  }

  lemma FromEnd(ws: seq<Group>, r: Run, v: string)
    requires |ws| == 8 && r.Run? && r.base + r.len == 8
    ensures From(ws, r, 8, v) == ":" + Joined(ws[8..])
  {
  }

  /** From the run on: a double colon and the groups behind it. */
  lemma FromGap(ws: seq<Group>, r: Run, v: string)
    requires |ws| == 8 && r.Run? && r.len >= 1 && r.base + r.len <= 8 && !Embeds(ws, r, 6)
    ensures From(ws, r, r.base, v) == "::" + Joined(ws[r.base + r.len..])
  {
    hide From, Joined;
    var e := r.base + r.len;
    FromRunStart(ws, r, v);
    if e < 8 {
      FromTail(ws, r, e, v);
    } else {
      FromEnd(ws, r, v);
    }
    assert ":" + (":" + Joined(ws[e..])) == "::" + Joined(ws[e..]);
  }

  /** Before the run. */
  lemma {:induction false} FromHead(ws: seq<Group>, r: Run, i: nat, v: string)
    requires |ws| == 8 && r.Run? && r.len >= 1 && i < r.base && r.base + r.len <= 8 && !Embeds(ws, r, 6)
    ensures From(ws, r, i, v) == Colon(i) + Joined(ws[i..r.base]) + "::" + Joined(ws[r.base + r.len..])
    decreases 8 - i
  {
    var head, rest := Colon(i) + Hex(ws[i]), Joined(ws[r.base + r.len..]);
    assert From(ws, r, i, v) == head + From(ws, r, i + 1, v);
    assert ws[i..r.base][1..] == ws[i + 1..r.base] && ws[i..r.base][0] == ws[i];
    if i + 1 == r.base {
      assert Joined(ws[i..r.base]) == Hex(ws[i]);
      FromGap(ws, r, v);
      ConcatAssoc(head, "::", rest);
    } else {
      FromHead(ws, r, i + 1, v);
      var more := Joined(ws[i + 1..r.base]);
      assert Joined(ws[i..r.base]) == Hex(ws[i]) + ":" + more;
      hide From, Joined, Hex, Colon;
      Regroup(Colon(i), Hex(ws[i]), more, rest);
    }
  }

  lemma Regroup(c: string, h: string, more: string, rest: string)
    ensures c + h + (":" + more + "::" + rest) == c + (h + ":" + more) + "::" + rest
  {
  }

  lemma {:induction false} GroupAt(bs: seq<Byte>, i: nat)
    requires |bs| % 2 == 0 && 2 * i < |bs|
    ensures Groups(bs)[i] == Join(bs[2 * i], bs[2 * i + 1])
  {
    if i > 0 {
      GroupAt(bs[2..], i - 1);
    }
  }

  /** ::ffff:a.b.c.d, an IPv4-mapped address. */
  predicate IsMapped(bs: seq<Byte>)
    requires |bs| == 16
  {
    bs[..10] == Zeros(10) && bs[10] == 255 && bs[11] == 255
  }

  /** ::a.b.c.d whose first two bytes are not both zero, an IPv4-compatible address. */
  predicate IsCompatible(bs: seq<Byte>)
    requires |bs| == 16
  {
    bs[..12] == Zeros(12) && !(bs[12] == 0 && bs[13] == 0)
  }

  lemma ZeroGroup(bs: seq<Byte>, i: nat)
    requires |bs| == 16 && i < 8
    ensures Groups(bs)[i] == 0 <==> bs[2 * i] == 0 && bs[2 * i + 1] == 0
  {
    GroupAt(bs, i);
  }

  lemma ZeroGroups(bs: seq<Byte>, n: nat)
    requires |bs| == 16 && n <= 8
    ensures bs[..2 * n] == Zeros(2 * n) <==> ZeroRun(Groups(bs), 0, n)
  {
    hide Groups;
    var ws := Groups(bs);
    forall i: nat | i < 8 ensures ws[i] == 0 <==> bs[2 * i] == 0 && bs[2 * i + 1] == 0 {
      ZeroGroup(bs, i);
    }
    if ZeroRun(ws, 0, n) {
      forall k | 0 <= k < 2 * n ensures bs[..2 * n][k] == 0 {
        assert ws[k / 2] == 0 && (k == 2 * (k / 2) || k == 2 * (k / 2) + 1);
      }
    }
    if bs[..2 * n] == Zeros(2 * n) {
      forall k | 0 <= k < n ensures ws[k] == 0 {
        assert bs[2 * k] == Zeros(2 * n)[2 * k] && bs[2 * k + 1] == Zeros(2 * n)[2 * k + 1];
      }
    }
  }

  /** The printer embeds an IPv4 text exactly for these two kinds of address. */
  lemma EmbedsExact(bs: seq<Byte>)
    requires |bs| == 16
    ensures
      var ws := Groups(bs);
      && (Embeds(ws, Elision(ws), 6) <==> IsMapped(bs) || IsCompatible(bs))
      && (IsMapped(bs) ==> Elision(ws) == Run(0, 5) && ws[5] == 0xFFFF)
      && (IsCompatible(bs) ==> Elision(ws) == Run(0, 6))
  {
    var ws := Groups(bs);
    hide Elision;
    ElisionIsFirstLongest(ws);
    ZeroGroups(bs, 5);
    ZeroGroups(bs, 6);
    GroupAt(bs, 5);
    GroupAt(bs, 6);
    LeadingRun(ws, Elision(ws));
  }

  lemma LeadingRun(ws: seq<Group>, r: Run)
    requires |ws| == 8 && IsElision(ws, r)
    ensures r == Run(0, 5) <==> ZeroRun(ws, 0, 5) && ws[5] != 0
    ensures r == Run(0, 6) <==> ZeroRun(ws, 0, 6) && ws[6] != 0
  {
    if r == Run(0, 5) && ws[5] == 0 {
      assert ZeroRun(ws, 0, 6);
    }
    if r == Run(0, 6) && ws[6] == 0 {
      assert ZeroRun(ws, 0, 7);
    }
    if ZeroRun(ws, 0, 5) && ws[5] != 0 {
      assert r.Run? && r.len >= 5;
      assert !(r.base <= 5 < r.base + r.len);
    }
    if ZeroRun(ws, 0, 6) && ws[6] != 0 {
      assert r.Run? && r.len >= 6;
      assert !(r.base <= 6 < r.base + r.len);
    }
  }

  /** The text of every address: groups around the elided run, or an IPv4 text behind its two prefixes. */
  lemma PrintExact(v4: Ipv4, bs: seq<Byte>)
    requires |bs| == 16
    ensures
      var ws := Groups(bs);
      var r := Elision(ws);
      && IsElision(ws, r)
      && Print(v4, bs) ==
           if IsMapped(bs) then "::ffff:" + v4.ntop(bs[12..])
           else if IsCompatible(bs) then "::" + v4.ntop(bs[12..])
           else if r.NoRun? then Joined(ws)
           else Joined(ws[..r.base]) + "::" + Joined(ws[r.base + r.len..])
  {
    hide Elision, From, Joined, Groups;
    var ws, v := Groups(bs), v4.ntop(bs[12..]);
    var r := Elision(ws);
    EmbedsExact(bs);
    ElisionIsFirstLongest(ws);
    if IsMapped(bs) {
      PrintMapped(ws, v);
    } else if IsCompatible(bs) {
      PrintCompatible(ws, v);
    } else {
      PrintGroups(ws, r, v);
    }
  }

  lemma PrintGroups(ws: seq<Group>, r: Run, v: string)
    requires |ws| == 8 && IsElision(ws, r) && !Embeds(ws, r, 6)
    ensures From(ws, r, 0, v) ==
      if r.NoRun? then Joined(ws) else Joined(ws[..r.base]) + "::" + Joined(ws[r.base + r.len..])
  {
    hide From, Embeds;
    if r.NoRun? {
      FromTail(ws, r, 0, v);
      assert ws[0..] == ws && "" + Joined(ws) == Joined(ws);
    } else if r.base == 0 {
      FromGap(ws, r, v);
      assert Joined(ws[..0]) == "";
    } else {
      FromHead(ws, r, 0, v);
      assert ws[0..r.base] == ws[..r.base] && "" + Joined(ws[..r.base]) == Joined(ws[..r.base]);
    }
  }

  lemma FromEmbedded(ws: seq<Group>, r: Run, v: string)
    requires |ws| == 8 && Embeds(ws, r, 6)
    ensures From(ws, r, 6, v) == ":" + v
  {
  }

  lemma PrintCompatible(ws: seq<Group>, v: string)
    requires |ws| == 8
    ensures From(ws, Run(0, 6), 0, v) == "::" + v
  {
    hide From;
    FromRunStart(ws, Run(0, 6), v);
    FromEmbedded(ws, Run(0, 6), v);
    assert ":" + (":" + v) == "::" + v;
  }

  lemma HexAllOnes()
    ensures Hex(0xFFFF) == "ffff"
  {
    assert Hex(0xF) == "f" && Hex(0xFF) == "ff" && Hex(0xFFF) == "fff";
  }

  lemma FromGroup(ws: seq<Group>, r: Run, i: nat, v: string)
    requires |ws| == 8 && i < 8 && !InRun(r, i) && !Embeds(ws, r, i)
    ensures From(ws, r, i, v) == Colon(i) + Hex(ws[i]) + From(ws, r, i + 1, v)
  {
  }

  lemma PrintMapped(ws: seq<Group>, v: string)
    requires |ws| == 8 && ws[5] == 0xFFFF
    ensures From(ws, Run(0, 5), 0, v) == "::ffff:" + v
  {
    hide From, Hex;
    var r := Run(0, 5);
    FromRunStart(ws, r, v);
    FromGroup(ws, r, 5, v);
    FromEmbedded(ws, r, v);
    HexAllOnes();
    assert ":" + (":" + "ffff" + (":" + v)) == "::ffff:" + v;
  }

  lemma {:induction false} JoinedNoDot(ws: seq<Group>)
    ensures '.' !in Joined(ws)
  {
    hide Hex;
    if ws != [] {
      HexExact(ws[0]);
      JoinedNoDot(ws[1..]);
    }
  }

  /** A dot is printed exactly for mapped and compatible addresses. */
  lemma PrintDots(v4: Ipv4, bs: seq<Byte>)
    requires |bs| == 16 && Faithful(v4)
    ensures '.' in Print(v4, bs) <==> IsMapped(bs) || IsCompatible(bs)
  {
    hide Print, Elision, Joined, Groups, Faithful, IsMapped, IsCompatible;
    var ws := Groups(bs);
    var r := Elision(ws);
    PrintExact(v4, bs);
    JoinedNoDot(ws);
    if r.Run? {
      JoinedNoDot(ws[..r.base]);
      JoinedNoDot(ws[r.base + r.len..]);
    }
    HasDot(v4, bs[12..]);
  }

  lemma HasDot(v4: Ipv4, b: seq<Byte>)
    requires Faithful(v4) && |b| == 4
    ensures '.' in v4.ntop(b)
  {
    assert Dotted(v4.ntop(b));
  }

  /** The two kinds of address with an IPv4 text, by their bytes. */
  lemma PrintEmbedded(v4: Ipv4, q: seq<Byte>)
    requires |q| == 4
    ensures Print(v4, Zeros(10) + [255, 255] + q) == "::ffff:" + v4.ntop(q)
    ensures !(q[0] == 0 && q[1] == 0) ==> Print(v4, Zeros(12) + q) == "::" + v4.ntop(q)
  {
    hide Print;
    var m, c := Zeros(10) + [255, 255] + q, Zeros(12) + q;
    assert m[..10] == Zeros(10) && m[12..] == q && c[..12] == Zeros(12) && c[12..] == q;
    PrintExact(v4, m);
    PrintExact(v4, c);
  }

  // ---------------------------------------------------------------- what is read

  /** A piece between colons that an IPv4 text does not start in. */
  predicate Piece(p: string) { ':' !in p && '.' !in p }

  predicate GroupText(p: string) { p != "" && HexText(p) && Value(0, p) <= 0xFFFF }

  /** Pieces with a colon behind each. */
  function Front(ps: seq<string>): string { if ps == [] then "" else ps[0] + ":" + Front(ps[1..]) }

  ghost predicate Pieces(ps: seq<string>) { forall i :: 0 <= i < |ps| ==> Piece(ps[i]) }

  predicate Spelled(ps: seq<string>) { forall i :: 0 <= i < |ps| ==> ps[i] == "" || GroupText(ps[i]) }

  /** The groups that the pieces spell; an empty piece spells none. */
  function Numbers(ps: seq<string>): seq<Group>
    requires Spelled(ps)
  {
    if ps == [] then [] else (if ps[0] == "" then [] else [Value(0, ps[0])]) + Numbers(ps[1..])
  }

  function Gaps(ps: seq<string>): nat { if ps == [] then 0 else (if ps[0] == "" then 1 else 0) + Gaps(ps[1..]) }

  /** How many bytes stand before the first empty piece. */
  function GapAt(ps: seq<string>): nat { if ps == [] || ps[0] == "" then 0 else 2 + GapAt(ps[1..]) }

  lemma {:induction false} ValueGrows(start: nat, p: string)
    requires HexText(p)
    ensures Value(start, p) >= start
    decreases |p|
  {
    if p != "" {
      ValueGrows(start * 16 + DigitValue(p[0]), p[1..]);
    }
  }

  /** Reading one piece: its digits are added to the number, or the text is refused. */
  lemma {:induction false} ScanPiece(v4: Ipv4, p: string, rest: string, tok: string, out: seq<Byte>, colon: Option<nat>,
                                     val: Group, saw: bool)
    requires Piece(p)
    ensures Scan(v4, p + rest, tok, out, colon, val, saw) ==
      if HexText(p) && Value(val, p) <= 0xFFFF
      then Scan(v4, rest, tok, out, colon, Value(val, p), saw || p != "")
      else None
    decreases |p|
  {
    if p == "" {
      assert p + rest == rest;
    } else {
      var d := DigitValue(p[0]);
      assert (p + rest)[0] == p[0] && (p + rest)[1..] == p[1..] + rest;
      assert HexText(p) <==> d >= 0 && HexText(p[1..]);
      if d >= 0 && HexText(p[1..]) {
        ValueGrows(val * 16 + d, p[1..]);
      }
      if d >= 0 && val * 16 + d <= 0xFFFF {
        ScanPiece(v4, p[1..], rest, tok, out, colon, val * 16 + d, true);
      }
    }
  }

  /** The pieces spell groups, with at most one gap in all and no more than sixteen bytes. */
  predicate FrontReads(ps: seq<string>, n: nat, colon: Option<nat>) {
    Spelled(ps) && Gaps(ps) + (if colon.Some? then 1 else 0) <= 1 && n + 2 * |Numbers(ps)| <= 16
  }

  /** Reading the pieces before the last one. */
  lemma {:induction false} ScanFront(v4: Ipv4, ps: seq<string>, tail: string, out: seq<Byte>, colon: Option<nat>)
    requires Pieces(ps) && |out| <= 16
    ensures Scan(v4, Front(ps) + tail, Front(ps) + tail, out, colon, 0, false) ==
      if FrontReads(ps, |out|, colon)
      then Scan(v4, tail, tail, out + Flat(Numbers(ps)),
                if Gaps(ps) == 0 then colon else Some(|out| + GapAt(ps)), 0, false)
      else None
    decreases |ps|
  {
    hide Scan, Flat;
    if ps == [] {
      assert Front(ps) + tail == tail;
      FlatEmpty();
      assert out + [] == out;
    } else {
      var p, qs := ps[0], ps[1..];
      var body, more := Front(ps) + tail, Front(qs) + tail;
      assert body == p + (":" + more);
      assert Spelled(ps) <==> (p == "" || GroupText(p)) && Spelled(qs);
      ScanPiece(v4, p, ":" + more, body, out, colon, 0, false);
      if p == "" {
        ScanSecondGap(v4, more, body, out, colon);
        if colon.None? {
          ScanFront(v4, qs, tail, out, Some(|out|));
        }
        if Spelled(ps) { assert Numbers(ps) == Numbers(qs); }
      } else if GroupText(p) {
        var w := Value(0, p);
        ScanStored(v4, more, body, out, colon, w);
        if |out| + 2 <= 16 {
          ScanFront(v4, qs, tail, out + Pair(w), colon);
        }
        if Spelled(ps) {
          FlatConcat([w], Numbers(qs));
          FlatOne(w);
          assert out + (Pair(w) + Flat(Numbers(qs))) == out + Pair(w) + Flat(Numbers(qs));
        }
      }
    }
  }

  lemma ScanSecondGap(v4: Ipv4, more: string, tok: string, out: seq<Byte>, colon: Option<nat>)
    ensures Scan(v4, ":" + more, tok, out, colon, 0, false) ==
      if colon.Some? then None else Scan(v4, more, more, out, Some(|out|), 0, false)
  {
  }

  lemma ScanStored(v4: Ipv4, more: string, tok: string, out: seq<Byte>, colon: Option<nat>, w: Group)
    ensures Scan(v4, ":" + more, tok, out, colon, w, true) ==
      if |out| + 2 > 16 then None else Scan(v4, more, more, out + Pair(w), colon, 0, false)
  {
  }

  /** The end of a text: a last piece, or an IPv4 text whose first dot stands behind the head. */
  datatype Tail = Last(piece: string) | Embedded(head: string, rest: string) {
    function Text(): string { if Last? then piece else head + "." + rest }

    predicate Fine() { Piece(if Last? then piece else head) }

    /** The bytes it stands for; none when it cannot be read. */
    function Bytes(v4: Ipv4): Option<seq<Byte>> {
      if Last? then
        if piece == "" then Some([]) else if GroupText(piece) then Some(Pair(Value(0, piece))) else None
      else if head == "" || GroupText(head) then v4.pton(Text())
      else None
    }
  }

  lemma ScanTailText(v4: Ipv4, t: Tail, out: seq<Byte>, colon: Option<nat>)
    requires t.Fine() && Faithful(v4) && |out| <= 16
    ensures Scan(v4, t.Text(), t.Text(), out, colon, 0, false) ==
      var b := t.Bytes(v4);
      if b.Some? && |out| + |b.value| <= 16 then Some(Parsed(out + b.value, colon)) else None
  {
    hide Faithful;
    if t.Last? {
      ScanPiece(v4, t.piece, "", t.piece, out, colon, 0, false);
      assert t.piece + "" == t.piece && out + [] == out;
    } else {
      ScanPiece(v4, t.head, "." + t.rest, t.Text(), out, colon, 0, false);
      assert t.Text() == t.head + ("." + t.rest);
      PtonFour(v4, t.Text());
    }
  }

  lemma PtonFour(v4: Ipv4, s: string)
    requires Faithful(v4)
    ensures v4.pton(s).Some? ==> |v4.pton(s).value| == 4
  {
  }

  /** What the text put together from these pieces stands for. */
  ghost function Meaning(v4: Ipv4, ps: seq<string>, t: Tail): Option<seq<Byte>> {
    var b := t.Bytes(v4);
    if !Spelled(ps) || Gaps(ps) > 1 || b.None? then None
    else
      var bytes, gap := Flat(Numbers(ps)) + b.value, GapAt(ps);
      if |bytes| > 16 || (Gaps(ps) == 0 && |bytes| < 16) || gap > |bytes| then None
      else if Gaps(ps) == 0 then Some(bytes)
      else if |bytes| < 16 then Some(bytes[..gap] + Zeros(16 - |bytes|) + bytes[gap..])
      else Some(bytes[..gap] + Zeros(16 - gap))
  }

  lemma {:induction false} GapInside(ps: seq<string>)
    requires Spelled(ps)
    ensures GapAt(ps) <= 2 * |Numbers(ps)|
  {
    if ps != [] {
      assert Spelled(ps[1..]);
      GapInside(ps[1..]);
    }
  }

  /**
   The parser on every text: a text that starts with a single colon is refused, any other is read as
   its pieces say. A text with a double colon in front counts without its first colon.
   */
  lemma ParseExact(v4: Ipv4, src: string, ps: seq<string>, t: Tail)
    requires Faithful(v4) && Pieces(ps) && t.Fine()
    requires src == (if src != "" && src[0] == ':' then ":" else "") + Front(ps) + t.Text()
    ensures Parse(v4, src) ==
      if src != "" && src[0] == ':' && (|src| < 2 || src[1] != ':') then None else Meaning(v4, ps, t)
  {
    hide Scan, Faithful, Flat, Meaning, Front;
    var body := Front(ps) + t.Text();
    if src != "" && src[0] == ':' {
      assert src == ":" + body && src[1..] == body;
    } else {
      assert src == "" + body == body;
    }
    ScanExact(v4, ps, t);
  }

  lemma ScanExact(v4: Ipv4, ps: seq<string>, t: Tail)
    requires Faithful(v4) && Pieces(ps) && t.Fine()
    ensures Finish(Scan(v4, Front(ps) + t.Text(), Front(ps) + t.Text(), [], None, 0, false)) == Meaning(v4, ps, t)
  {
    hide Scan, Faithful, Flat, Front, Piece, GroupText, Spelled, Gaps;
    ScanFront(v4, ps, t.Text(), [], None);
    if FrontReads(ps, 0, None) {
      GapInside(ps);
      var out, colon := Flat(Numbers(ps)), if Gaps(ps) == 0 then None else Some(GapAt(ps));
      assert [] + out == out;
      ScanTailText(v4, t, out, colon);
    }
  }

  /** Every text falls into such pieces. */
  lemma {:induction false} EveryText(body: string) returns (ps: seq<string>, t: Tail)
    ensures Pieces(ps) && t.Fine() && body == Front(ps) + t.Text()
    decreases |body|
  {
    if Piece(body) {
      ps, t := [], Last(body);
    } else {
      var k := FirstMark(body);
      if body[k] == '.' {
        ps, t := [], Embedded(body[..k], body[k + 1..]);
      } else {
        var qs;
        qs, t := EveryText(body[k + 1..]);
        ps := [body[..k]] + qs;
        assert ps[1..] == qs;
        assert body == body[..k] + ":" + body[k + 1..];
        assert body[..k] + ":" + (Front(qs) + t.Text()) == (body[..k] + ":" + Front(qs)) + t.Text();
      }
    }
  }

  lemma {:induction false} FirstMark(s: string) returns (k: nat)
    requires !Piece(s)
    ensures k < |s| && (s[k] == ':' || s[k] == '.') && Piece(s[..k])
    decreases |s|
  {
    if s[0] == ':' || s[0] == '.' {
      k := 0;
    } else {
      var j := FirstMark(s[1..]);
      k := j + 1;
      assert s[..k] == [s[0]] + s[1..][..j];
    }
  }
}
