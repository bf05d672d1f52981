/**
 The text form of IPv6 addresses, section 2.2 of RFC 4291: what the printer writes, what the
 parser reads, and the proof that parsing what was printed gives the address back.
 */
module Inet6Text {
  import opened Basics

  type Byte = x: int | 0 <= x < 256
  type Group = x: int | 0 <= x < 0x10000

  /** The system's IPv4 printer and parser. */
  datatype Ipv4 = Ipv4(ntop: seq<Byte> -> string, pton: string -> Option<seq<Byte>>)

  predicate Decimal(c: char) { '0' <= c <= '9' }

  /** The text starts with one to three decimal digits and a dot. */
  predicate Dotted(s: string) {
    exists k: nat :: 1 <= k <= 3 && DottedAt(s, k)
  }

  predicate DottedAt(s: string, k: nat) {
    k < |s| && s[k] == '.' && forall i :: 0 <= i < k ==> Decimal(s[i])
  }

  /** The IPv4 helpers invert each other and print dotted decimal of at most fifteen characters. */
  ghost predicate Faithful(v4: Ipv4) {
    && (forall b: seq<Byte> :: |b| == 4 ==> |v4.ntop(b)| <= 15 && Dotted(v4.ntop(b)) && v4.pton(v4.ntop(b)) == Some(b))
    && (forall s: string :: v4.pton(s).Some? ==> |v4.pton(s).value| == 4)
  }

  // ---------------------------------------------------------------- groups and bytes

  function Pair(w: Group): seq<Byte> { [w / 256, w % 256] }

  function Join(hi: int, lo: int): Group
    requires 0 <= hi < 256 && 0 <= lo < 256
  {
    hi * 256 + lo
  }

  function Flat(ws: seq<Group>): (bs: seq<Byte>)
    ensures |bs| == 2 * |ws|
  {
    if ws == [] then [] else Pair(ws[0]) + Flat(ws[1..])
  }

  function Groups(bs: seq<Byte>): (ws: seq<Group>)
    requires |bs| % 2 == 0
    ensures |ws| == |bs| / 2
  {
    if bs == [] then [] else [Join(bs[0], bs[1])] + Groups(bs[2..])
  }

  lemma PairJoin(hi: Byte, lo: Byte)
    ensures Pair(Join(hi, lo)) == [hi, lo]
  {
  }

  lemma {:induction false} FlatGroups(bs: seq<Byte>)
    requires |bs| % 2 == 0
    ensures Flat(Groups(bs)) == bs
  {
    if bs != [] {
      FlatGroups(bs[2..]);
      PairJoin(bs[0], bs[1]);
      hide Join, Pair;
      assert Groups(bs)[0] == Join(bs[0], bs[1]) && Groups(bs)[1..] == Groups(bs[2..]);
      assert bs == [bs[0], bs[1]] + bs[2..];
    }
  }

  lemma {:induction false} FlatConcat(a: seq<Group>, b: seq<Group>)
    ensures Flat(a + b) == Flat(a) + Flat(b)
  {
    if a == [] {
      assert a + b == b;
    } else {
      assert (a + b)[0] == a[0] && (a + b)[1..] == a[1..] + b;
      FlatConcat(a[1..], b);
    }
  }

  lemma FlatOne(w: Group)
    ensures Flat([w]) == Pair(w)
  {
  }

  lemma {:induction false} FlatZeros(ws: seq<Group>)
    requires forall i :: 0 <= i < |ws| ==> ws[i] == 0
    ensures Flat(ws) == Zeros(2 * |ws|)
  {
    if ws != [] {
      FlatZeros(ws[1..]);
    }
  }

  function Zeros(n: nat): seq<Byte> { seq(n, _ => 0) }

  // ---------------------------------------------------------------- the longest run of zero groups

  ghost predicate ZeroRun(ws: seq<Group>, i: nat, n: nat) {
    i + n <= |ws| && forall k :: i <= k < i + n ==> ws[k] == 0
  }

  datatype Run = NoRun | Run(base: nat, len: nat)

  /** The first of the longest runs of at least two zero groups, or no run when there is none. */
  ghost predicate IsElision(ws: seq<Group>, r: Run) {
    match r
    case NoRun => forall i: nat, n: nat :: n >= 2 ==> !ZeroRun(ws, i, n)
    case Run(base, len) =>
      && len >= 2 && ZeroRun(ws, base, len)
      && forall i: nat, n: nat :: ZeroRun(ws, i, n) ==> n <= len && (i < base ==> n < len)
  }

  /** The better of the best run so far and the run just ended: an equal length does not replace. */
  function Better(best: Run, cur: Run): Run {
    if cur == NoRun then best
    else if best == NoRun || cur.len > best.len then cur
    else best
  }

  /** Best finished run and current run after i groups. */
  function Runs(ws: seq<Group>, i: nat): (Run, Run)
    requires i <= |ws|
  {
    if i == 0 then (NoRun, NoRun)
    else
      var (best, cur) := Runs(ws, i - 1);
      if ws[i - 1] == 0 then (best, if cur == NoRun then Run(i - 1, 1) else Run(cur.base, cur.len + 1))
      else (Better(best, cur), NoRun)
  }

  function Elision(ws: seq<Group>): Run {
    var (best, cur) := Runs(ws, |ws|);
    var r := Better(best, cur);
    if r.Run? && r.len < 2 then NoRun else r
  }

  /** cur is the zero run that ends at i and cannot start earlier. */
  ghost predicate Current(ws: seq<Group>, i: nat, cur: Run)
    requires i <= |ws|
  {
    match cur
    case NoRun => i > 0 ==> ws[i - 1] != 0
    case Run(b, n) => n >= 1 && b + n == i && ZeroRun(ws, b, n) && (b > 0 ==> ws[b - 1] != 0)
  }

  /** best is the first of the longest runs among those that start before limit. */
  ghost predicate Champion(ws: seq<Group>, limit: nat, best: Run) {
    match best
    case NoRun => forall i: nat :: i < limit && i < |ws| ==> ws[i] != 0
    case Run(b, len) =>
      && len >= 1 && b + len <= limit && ZeroRun(ws, b, len)
      && forall i: nat, n: nat :: ZeroRun(ws, i, n) && n >= 1 && i + n <= limit ==> n <= len && (i < b ==> n < len)
  }

  lemma {:induction false} RunsChampion(ws: seq<Group>, i: nat)
    requires i <= |ws|
    ensures var (best, cur) := Runs(ws, i);
      Current(ws, i, cur) && Champion(ws, if cur == NoRun then i else cur.base, best)
  {
    if i > 0 {
      RunsChampion(ws, i - 1);
      var (best, cur) := Runs(ws, i - 1);
      if ws[i - 1] != 0 {
        BetterChampion(ws, i - 1, best, cur);
        ChampionStep(ws, i - 1, Better(best, cur));
      }
    }
  }

  lemma BetterChampion(ws: seq<Group>, i: nat, best: Run, cur: Run)
    requires i <= |ws| && Current(ws, i, cur) && Champion(ws, if cur == NoRun then i else cur.base, best)
    ensures Champion(ws, i, Better(best, cur))
  {
    if cur.Run? {
      forall j: nat, n: nat | ZeroRun(ws, j, n) && n >= 1 && j + n <= i && j < cur.base
        ensures j + n <= cur.base
      {
      }
      if best.NoRun? {
        forall j: nat, n: nat | ZeroRun(ws, j, n) && n >= 1 && j + n <= i ensures j >= cur.base {
          var first := ws[j];
        }
      }
    }
  }

  lemma ChampionStep(ws: seq<Group>, i: nat, best: Run)
    requires i < |ws| && ws[i] != 0 && Champion(ws, i, best)
    ensures Champion(ws, i + 1, best)
  {
  }

  /** The printer elides exactly the first longest run of two or more, sections 4.2.1 to 4.2.3 of RFC 5952. */
  lemma ElisionIsFirstLongest(ws: seq<Group>)
    ensures IsElision(ws, Elision(ws))
  {
    RunsChampion(ws, |ws|);
    var (best, cur) := Runs(ws, |ws|);
    BetterChampion(ws, |ws|, best, cur);
    var r := Better(best, cur);
    forall i: nat, n: nat | ZeroRun(ws, i, n) && n >= 2 ensures r.Run? && n <= r.len {
      assert ws[i] == 0;
    }
  }

  // ---------------------------------------------------------------- the printer's text

  function HexDigit(d: int): char
    requires 0 <= d < 16
  {
    if d < 10 then '0' + d as char else 'a' + (d - 10) as char
  }

  /** A number in hexadecimal without leading zeros. */
  function Hex(w: nat): string {
    if w < 16 then [HexDigit(w)] else Hex(w / 16) + [HexDigit(w % 16)]
  }

  /** The last four bytes are written as IPv4: compatible or mapped addresses. */
  predicate Embeds(ws: seq<Group>, r: Run, i: nat)
    requires |ws| == 8
  {
    i == 6 && r.Run? && r.base == 0 && (r.len == 6 || (r.len == 5 && ws[5] == 0xFFFF))
  }

  predicate InRun(r: Run, i: nat) { r.Run? && r.base <= i < r.base + r.len }

  function Colon(i: nat): string { if i != 0 then ":" else "" }

  /** What the formatting loop still writes from group i on; v is the IPv4 text of the last four bytes. */
  function From(ws: seq<Group>, r: Run, i: nat, v: string): string
    requires |ws| == 8 && i <= 8
    decreases 8 - i
  {
    if i == 8 then (if r.Run? && r.base + r.len == 8 then ":" else "")
    else if InRun(r, i) then (if i == r.base then ":" else "") + From(ws, r, i + 1, v)
    else if Embeds(ws, r, i) then Colon(i) + v
    else Colon(i) + Hex(ws[i]) + From(ws, r, i + 1, v)
  }

  function Print(v4: Ipv4, bs: seq<Byte>): string
    requires |bs| == 16
  {
    var ws := Groups(bs);
    From(ws, Elision(ws), 0, v4.ntop(bs[12..]))
  }

  lemma {:induction false} HexLength(w: nat, n: nat)
    requires w < Pow16(n) && n >= 1
    ensures 1 <= |Hex(w)| <= n
  {
    if w >= 16 {
      HexLength(w / 16, n - 1);
    }
  }

  function Pow16(n: nat): nat { if n == 0 then 1 else 16 * Pow16(n - 1) }

  lemma GroupHexLength(w: Group)
    ensures 1 <= |Hex(w)| <= 4
  {
    assert Pow16(4) == 0x10000 by {
      assert Pow16(1) == 16 && Pow16(2) == 256 && Pow16(3) == 4096;
    }
    HexLength(w, 4);
  }

  lemma {:induction false} FromLength(ws: seq<Group>, r: Run, i: nat, v: string)
    requires |ws| == 8 && 1 <= i <= 8 && |v| <= 15
    ensures |From(ws, r, i, v)| <= 5 * (8 - i) + if i <= 6 then 6 else 1
    decreases 8 - i
  {
    hide Hex;
    if i < 8 {
      FromLength(ws, r, i + 1, v);
      GroupHexLength(ws[i]);
    }
  }

  /** The text and its terminator fit the 46-byte buffer. */
  lemma PrintFits(v4: Ipv4, bs: seq<Byte>)
    requires |bs| == 16 && Faithful(v4)
    ensures |Print(v4, bs)| + 1 <= 46
  {
    hide Hex;
    var ws := Groups(bs);
    FromLength(ws, Elision(ws), 1, v4.ntop(bs[12..]));
    GroupHexLength(ws[0]);
  }

  // ---------------------------------------------------------------- the parser

  /** The value of a hexadecimal digit of either case, or minus one. */
  function DigitValue(c: char): int {
    if '0' <= c <= '9' then c as int - '0' as int
    else if 'a' <= c <= 'f' then c as int - 'a' as int + 10
    else if 'A' <= c <= 'F' then c as int - 'A' as int + 10
    else -1
  }

  /** The bytes written and where the double colon stood, if there was one. */
  datatype Parsed = Parsed(out: seq<Byte>, colon: Option<nat>)

  function Store(out: seq<Byte>, val: Group): (r: Option<seq<Byte>>)
    ensures r.Some? ==> |r.value| == |out| + 2 <= 16
  {
    if |out| + 2 > 16 then None else Some(out + Pair(val))
  }

  /**
   The scanning loop: rest is the text still to read, tok the text from the start of the current
   token, out the bytes written, val and saw the number being read.
   */
  function Scan(v4: Ipv4, rest: string, tok: string, out: seq<Byte>, colon: Option<nat>, val: Group,
                saw: bool): Option<Parsed>
  {
    if rest == [] then
      if !saw then Some(Parsed(out, colon))
      else var stored := Store(out, val); if stored.None? then None else Some(Parsed(stored.value, colon))
    else
      var c, after := rest[0], rest[1..];
      var d := DigitValue(c);
      if d >= 0 then
        if val * 16 + d > 0xFFFF then None else Scan(v4, after, tok, out, colon, val * 16 + d, true)
      else if c == ':' then
        if !saw then
          if colon.Some? then None else Scan(v4, after, after, out, Some(|out|), val, false)
        else
          var stored := Store(out, val);
          if stored.None? then None else Scan(v4, after, after, stored.value, colon, 0, false)
      else if c == '.' && |out| + 4 <= 16 && v4.pton(tok).Some? then
        Some(Parsed(out + v4.pton(tok).value, colon))
      else None
  }

  /**
   Moving what follows the double colon to the end. The shift zeroes each byte after copying it, so
   with no gap at all it wipes the bytes instead.
   */
  function Spread(out: seq<Byte>, colon: nat): (r: seq<Byte>)
    requires colon <= |out| <= 16
    ensures |r| == 16
  {
    if |out| < 16 then out[..colon] + Zeros(16 - |out|) + out[colon..]
    else out[..colon] + Zeros(16 - colon)
  }

  function Finish(p: Option<Parsed>): Option<seq<Byte>> {
    if p.None? then None
    else if p.value.colon.Some? then
      if p.value.colon.value <= |p.value.out| <= 16 then Some(Spread(p.value.out, p.value.colon.value)) else None
    else if |p.value.out| == 16 then Some(p.value.out) else None
  }

  /** The scan of a whole text, which may start with a double colon but not with a single one. */
  function Scanned(v4: Ipv4, src: string): Option<Parsed> {
    if src != [] && src[0] == ':' then
      if |src| < 2 || src[1] != ':' then None else Scan(v4, src[1..], src[1..], [], None, 0, false)
    else Scan(v4, src, src, [], None, 0, false)
  }

  function Parse(v4: Ipv4, src: string): Option<seq<Byte>> { Finish(Scanned(v4, src)) }

  // ---------------------------------------------------------------- reading back what was printed

  lemma HexDigitValue(d: int)
    requires 0 <= d < 16
    ensures DigitValue(HexDigit(d)) == d && HexDigit(d) != ':'
  {
  }

  lemma {:induction false} ScanHex(v4: Ipv4, w: Group, rest: string, tok: string, out: seq<Byte>, colon: Option<nat>)
    ensures Scan(v4, Hex(w) + rest, tok, out, colon, 0, false) == Scan(v4, rest, tok, out, colon, w, true)
    decreases w
  {
    if w < 16 {
      HexDigitValue(w);
      assert (Hex(w) + rest)[1..] == rest;
    } else {
      var more := [HexDigit(w % 16)] + rest;
      assert Hex(w) + rest == Hex(w / 16) + more;
      ScanHex(v4, w / 16, more, tok, out, colon);
      HexDigitValue(w % 16);
      assert more[1..] == rest;
    }
  }

  /** A colon after a number stores the number and starts a new token. */
  lemma ScanColon(v4: Ipv4, rest: string, tok: string, out: seq<Byte>, colon: Option<nat>, w: Group)
    requires |out| + 2 <= 16
    ensures Scan(v4, ":" + rest, tok, out, colon, w, true) == Scan(v4, rest, rest, out + Pair(w), colon, 0, false)
  {
  }

  /** A colon with no number before it marks the gap. */
  lemma ScanGap(v4: Ipv4, rest: string, tok: string, out: seq<Byte>)
    ensures Scan(v4, ":" + rest, tok, out, None, 0, false) == Scan(v4, rest, rest, out, Some(|out|), 0, false)
  {
  }

  /** The leading digits of an IPv4 text read as a harmless hexadecimal number up to its first dot. */
  lemma {:induction false} ScanDotted(v4: Ipv4, s: string, i: nat, k: nat, out: seq<Byte>, colon: Option<nat>,
                                      val: Group, saw: bool)
    requires DottedAt(s, k) && i <= k <= 3 && v4.pton(s).Some? && |out| + 4 <= 16
    requires val < (if i == 0 then 1 else if i == 1 then 10 else if i == 2 then 0x9A else 0x99A)
    ensures Scan(v4, s[i..], s, out, colon, val, saw) == Some(Parsed(out + v4.pton(s).value, colon))
    decreases k - i
  {
    if i < k {
      assert Decimal(s[i]) && s[i..][1..] == s[i + 1..];
      ScanDotted(v4, s, i + 1, k, out, colon, val * 16 + DigitValue(s[i]), true);
    }
  }

  /** The IPv4 text v stands for the last two groups. */
  ghost predicate Stands(v4: Ipv4, ws: seq<Group>, v: string)
    requires |ws| == 8
  {
    Dotted(v) && v4.pton(v) == Some(Flat(ws[6..]))
  }

  lemma FlatStep(ws: seq<Group>, i: nat)
    requires i < |ws|
    ensures Flat(ws[i..]) == Pair(ws[i]) + Flat(ws[i + 1..])
  {
  }

  lemma FlatSnoc(ws: seq<Group>, i: nat)
    requires i < |ws|
    ensures Flat(ws[..i + 1]) == Flat(ws[..i]) + Pair(ws[i])
  {
    assert ws[..i + 1] == ws[..i] + [ws[i]];
    FlatConcat(ws[..i], [ws[i]]);
    FlatOne(ws[i]);
  }

  lemma ScanEmbedded(v4: Ipv4, ws: seq<Group>, v: string, out: seq<Byte>, colon: Option<nat>)
    requires |ws| == 8 && Stands(v4, ws, v) && |out| + 4 <= 16
    ensures Scan(v4, v, v, out, colon, 0, false) == Some(Parsed(out + Flat(ws[6..]), colon))
  {
    var k: nat :| 1 <= k <= 3 && DottedAt(v, k);
    assert v[0..] == v;
    ScanDotted(v4, v, 0, k, out, colon, 0, false);
  }

  /** Behind the elided run, with group i - 1 read but not yet stored. */
  lemma {:induction false} ScanTail(v4: Ipv4, ws: seq<Group>, r: Run, i: nat, v: string, tok: string, out: seq<Byte>,
                                    colon: Option<nat>)
    requires |ws| == 8 && 1 <= i <= 8 && (r.Run? ==> r.base + r.len < i) && Stands(v4, ws, v)
    requires |out| + 2 * (9 - i) <= 16
    ensures Scan(v4, From(ws, r, i, v), tok, out, colon, ws[i - 1], true) ==
      Some(Parsed(out + Flat(ws[i - 1..]), colon))
    decreases 8 - i
  {
    hide Hex, Pair, Stands, DigitValue, Flat;
    FlatStep(ws, i - 1);
    var stored := out + Pair(ws[i - 1]);
    if i == 8 {
      FlatEmpty();
      assert ws[8..] == [];
      assert out + (Pair(ws[7]) + []) == stored;
    } else {
      var more := if Embeds(ws, r, i) then v else Hex(ws[i]) + From(ws, r, i + 1, v);
      assert From(ws, r, i, v) == ":" + more;
      ScanColon(v4, more, tok, out, colon, ws[i - 1]);
      assert stored + Flat(ws[i..]) == out + (Pair(ws[i - 1]) + Flat(ws[i..]));
      if Embeds(ws, r, i) {
        ScanEmbedded(v4, ws, v, stored, colon);
      } else {
        ScanHex(v4, ws[i], From(ws, r, i + 1, v), more, stored, colon);
        ScanTail(v4, ws, r, i + 1, v, more, stored, colon);
      }
    }
  }

  /** Right behind the elided run: the next colon marks the gap. */
  lemma ScanAfterRun(v4: Ipv4, ws: seq<Group>, r: Run, v: string, tok: string, out: seq<Byte>)
    requires |ws| == 8 && r.Run? && r.len >= 1 && r.base + r.len <= 8 && Stands(v4, ws, v)
    requires |out| + 2 * (8 - (r.base + r.len)) <= 16
    ensures var i := r.base + r.len;
      Scan(v4, From(ws, r, i, v), tok, out, None, 0, false) == Some(Parsed(out + Flat(ws[i..]), Some(|out|)))
    ensures From(ws, r, r.base + r.len, v) != [] && From(ws, r, r.base + r.len, v)[0] == ':'
  {
    hide Hex, Pair, Stands;
    var i := r.base + r.len;
    var more := if i == 8 then "" else if Embeds(ws, r, i) then v else Hex(ws[i]) + From(ws, r, i + 1, v);
    assert From(ws, r, i, v) == ":" + more;
    ScanGap(v4, more, tok, out);
    if i == 8 {
      assert out + Flat(ws[8..]) == out;
    } else if Embeds(ws, r, i) {
      ScanEmbedded(v4, ws, v, out, Some(|out|));
    } else {
      ScanHex(v4, ws[i], From(ws, r, i + 1, v), more, out, Some(|out|));
      ScanTail(v4, ws, r, i + 1, v, more, out, Some(|out|));
    }
  }

  lemma {:induction false} FromSkips(ws: seq<Group>, r: Run, j: nat, v: string)
    requires |ws| == 8 && r.Run? && r.base < j <= r.base + r.len <= 8
    ensures From(ws, r, j, v) == From(ws, r, r.base + r.len, v)
    decreases 8 - j
  {
    hide Hex, Embeds;
    if j < r.base + r.len {
      FromSkips(ws, r, j + 1, v);
      assert "" + From(ws, r, j + 1, v) == From(ws, r, j + 1, v);
    }
  }

  /** Before the elided run, with group i - 1 read but not yet stored. */
  lemma {:induction false} ScanBefore(v4: Ipv4, ws: seq<Group>, r: Run, i: nat, v: string, tok: string)
    requires |ws| == 8 && r.Run? && r.len >= 1 && 1 <= i <= r.base && r.base + r.len <= 8 && Stands(v4, ws, v)
    ensures Scan(v4, From(ws, r, i, v), tok, Flat(ws[..i - 1]), None, ws[i - 1], true) ==
      Some(Parsed(Flat(ws[..r.base]) + Flat(ws[r.base + r.len..]), Some(2 * r.base)))
    decreases r.base - i
  {
    hide Hex, Pair, Stands;
    FlatSnoc(ws, i - 1);
    var more := if i == r.base then From(ws, r, i + 1, v) else Hex(ws[i]) + From(ws, r, i + 1, v);
    assert From(ws, r, i, v) == ":" + more;
    ScanColon(v4, more, tok, Flat(ws[..i - 1]), None, ws[i - 1]);
    if i == r.base {
      FromSkips(ws, r, i + 1, v);
      ScanAfterRun(v4, ws, r, v, more, Flat(ws[..i]));
    } else {
      ScanHex(v4, ws[i], From(ws, r, i + 1, v), more, Flat(ws[..i]), None);
      ScanBefore(v4, ws, r, i + 1, v, more);
    }
  }

  lemma SpreadConcat(a: seq<Byte>, b: seq<Byte>)
    requires |a| + |b| < 16
    ensures Spread(a + b, |a|) == a + Zeros(16 - |a| - |b|) + b
  {
  }

  lemma SpreadRestores(ws: seq<Group>, r: Run)
    requires |ws| == 8 && r.Run? && r.len >= 1 && ZeroRun(ws, r.base, r.len)
    ensures Finish(Some(Parsed(Flat(ws[..r.base]) + Flat(ws[r.base + r.len..]), Some(2 * r.base)))) == Some(Flat(ws))
  {
    hide Flat, Spread, Pair;
    var a, z, b := ws[..r.base], ws[r.base..r.base + r.len], ws[r.base + r.len..];
    assert ws == a + z + b;
    FlatConcat(a + z, b);
    FlatConcat(a, z);
    FlatZeros(z);
    SpreadConcat(Flat(a), Flat(b));
  }

  lemma FirstIsHex(w: Group, rest: string)
    ensures Hex(w) + rest != [] && (Hex(w) + rest)[0] != ':'
    decreases w
  {
  }

  /** The text starts with the elided run: it opens with a double colon. */
  lemma ParseLeadingRun(v4: Ipv4, ws: seq<Group>, r: Run, v: string)
    requires |ws| == 8 && Stands(v4, ws, v) && r.Run? && r.base == 0 && r.len >= 1 && ZeroRun(ws, r.base, r.len)
    ensures Parse(v4, From(ws, r, 0, v)) == Some(Flat(ws))
  {
    hide Hex, Stands, Scan, Pair, Flat, Finish, Spread;
    var src, rest := From(ws, r, 0, v), From(ws, r, r.len, v);
    SpreadRestores(ws, r);
    FromSkips(ws, r, 1, v);
    assert src == ":" + rest;
    assert src[1..] == rest;
    ScanAfterRun(v4, ws, r, v, rest, []);
    FlatEmpty();
    assert ws[..0] == [] && [] + Flat(ws[r.len..]) == Flat(ws[..0]) + Flat(ws[0 + r.len..]);
  }

  lemma FlatEmpty()
    ensures Flat([]) == []
  {
  }

  lemma FromStart(ws: seq<Group>, r: Run, v: string)
    requires |ws| == 8 && !InRun(r, 0)
    ensures From(ws, r, 0, v) == Hex(ws[0]) + From(ws, r, 1, v)
  {
    hide Hex;
    assert "" + Hex(ws[0]) == Hex(ws[0]);
  }

  /** The text starts with a group: any elided run comes later. */
  lemma ParseLeadingGroup(v4: Ipv4, ws: seq<Group>, r: Run, v: string)
    requires |ws| == 8 && Stands(v4, ws, v)
    requires r.Run? ==> r.base > 0 && r.len >= 1 && ZeroRun(ws, r.base, r.len)
    ensures Parse(v4, From(ws, r, 0, v)) == Some(Flat(ws))
  {
    FromStart(ws, r, v);
    hide Hex, Stands, Scan, Pair, Flat, Spread, From, Embeds;
    var src, more := From(ws, r, 0, v), From(ws, r, 1, v);
    FirstIsHex(ws[0], more);
    ScanHex(v4, ws[0], more, src, [], None);
    FlatEmpty();
    assert ws[..0] == [] && ws[0..] == ws;
    if r.Run? {
      SpreadRestores(ws, r);
      ScanBefore(v4, ws, r, 1, v, src);
    } else {
      ScanTail(v4, ws, r, 1, v, src, [], None);
      assert [] + Flat(ws[0..]) == Flat(ws);
    }
  }

  /** Whatever run of zero groups is elided, and none, the text parses back to the groups. */
  lemma ParseFrom(v4: Ipv4, ws: seq<Group>, r: Run, v: string)
    requires |ws| == 8 && Stands(v4, ws, v)
    requires r.Run? ==> r.len >= 1 && ZeroRun(ws, r.base, r.len)
    ensures Parse(v4, From(ws, r, 0, v)) == Some(Flat(ws))
  {
    if r.Run? && r.base == 0 {
      ParseLeadingRun(v4, ws, r, v);
    } else {
      ParseLeadingGroup(v4, ws, r, v);
    }
  }

  /** Parsing the printed text of any address succeeds and gives the same sixteen bytes. */
  lemma RoundTrip(v4: Ipv4, bs: seq<Byte>)
    requires Faithful(v4) && |bs| == 16
    ensures Parse(v4, Print(v4, bs)) == Some(bs)
  {
    hide Parse, From, Elision, Dotted;
    var ws := Groups(bs);
    ElisionIsFirstLongest(ws);
    FlatGroups(bs);
    LastGroups(bs);
    assert v4.pton(v4.ntop(bs[12..])) == Some(bs[12..]);
    ParseFrom(v4, ws, Elision(ws), v4.ntop(bs[12..]));
  }

  lemma LastGroups(bs: seq<Byte>)
    requires |bs| == 16
    ensures Flat(Groups(bs)[6..]) == bs[12..]
  {
    var ws := Groups(bs);
    FlatGroups(bs);
    assert ws == ws[..6] + ws[6..];
    FlatConcat(ws[..6], ws[6..]);
    assert (Flat(ws[..6]) + Flat(ws[6..]))[12..] == Flat(ws[6..]);
  }

  // ---------------------------------------------------------------- where the code falls short

  lemma {:induction false} ScanMarks(v4: Ipv4, rest: string, tok: string, out: seq<Byte>, colon: Option<nat>,
                                     val: Group, saw: bool)
    requires colon.Some? ==> colon.value <= |out|
    ensures var p := Scan(v4, rest, tok, out, colon, val, saw);
      p.Some? && p.value.colon.Some? ==> p.value.colon.value <= |p.value.out|
    decreases |rest|
  {
    if rest != [] {
      var c, after, d := rest[0], rest[1..], DigitValue(rest[0]);
      if d >= 0 {
        if val * 16 + d <= 0xFFFF { ScanMarks(v4, after, tok, out, colon, val * 16 + d, true); }
      } else if c == ':' && !saw {
        ScanMarks(v4, after, after, out, Some(|out|), val, false);
      } else if c == ':' && Store(out, val).Some? {
        ScanMarks(v4, after, after, Store(out, val).value, colon, 0, false);
      }
    }
  }

  /**
   A text with a double colon keeps what was written before and behind it exactly when the double colon
   stands for something or only zeros follow: behind eight full groups the shift wipes what it should keep.
   */
  lemma DoubleColonKeeps(v4: Ipv4, src: string, out: seq<Byte>, c: nat)
    requires Scanned(v4, src) == Some(Parsed(out, Some(c))) && |out| <= 16
    ensures c <= |out| && Parse(v4, src).Some? && |Parse(v4, src).value| == 16
    ensures Parse(v4, src).value[..c] == out[..c]
    ensures Parse(v4, src).value[16 - (|out| - c)..] == out[c..] <==>
        |out| < 16 || forall i :: c <= i < 16 ==> out[i] == 0
    ensures |out| == 16 ==> (Parse(v4, src) == Some(out) <==> forall i :: c <= i < 16 ==> out[i] == 0)
  {
    hide Scan;
    if src != [] && src[0] == ':' {
      ScanMarks(v4, src[1..], src[1..], [], None, 0, false);
    } else {
      ScanMarks(v4, src, src, [], None, 0, false);
    }
    var r := Spread(out, c);
    assert |out| == 16 && r == out ==> forall i :: c <= i < 16 ==> out[i] == r[i];
    if |out| == 16 && r[c..] == out[c..] {
      forall i | c <= i < 16 ensures out[i] == 0 {
        assert out[i] == out[c..][i - c] == r[c..][i - c] == r[i];
      }
    }
  }

  /** A one-digit group and its colon. */
  lemma ScanDigit(v4: Ipv4, d: char, rest: string, next: string, out: seq<Byte>, out': seq<Byte>, colon: Option<nat>)
    requires '0' <= d <= '9' && rest == [d] + ":" + next
    requires out' == out + [0, d as int - '0' as int] && |out'| <= 16
    ensures Scan(v4, rest, rest, out, colon, 0, false) == Scan(v4, next, next, out', colon, 0, false)
  {
    assert rest[1..] == ":" + next && (":" + next)[1..] == next;
  }

  lemma ScanLastDigit(v4: Ipv4, d: char, out: seq<Byte>, out': seq<Byte>, colon: Option<nat>)
    requires '0' <= d <= '9' && out' == out + [0, d as int - '0' as int] && |out'| <= 16
    ensures Scan(v4, [d], [d], out, colon, 0, false) == Some(Parsed(out', colon))
  {
    assert [d][1..] == [];
  }

  lemma ScanFirstHalf(v4: Ipv4)
    ensures Scanned(v4, "1:2:3:4::5:6:7:8") ==
      Scan(v4, ":5:6:7:8", ":5:6:7:8", [0, 1, 0, 2, 0, 3, 0, 4], None, 0, false)
  {
    hide Scan;
    ScanDigit(v4, '1', "1:2:3:4::5:6:7:8", "2:3:4::5:6:7:8", [], [0, 1], None);
    ScanDigit(v4, '2', "2:3:4::5:6:7:8", "3:4::5:6:7:8", [0, 1], [0, 1, 0, 2], None);
    ScanDigit(v4, '3', "3:4::5:6:7:8", "4::5:6:7:8", [0, 1, 0, 2], [0, 1, 0, 2, 0, 3], None);
    ScanDigit(v4, '4', "4::5:6:7:8", ":5:6:7:8", [0, 1, 0, 2, 0, 3], [0, 1, 0, 2, 0, 3, 0, 4], None);
  }

  lemma ScanSecondHalf(v4: Ipv4, half: seq<Byte>)
    requires |half| == 8
    ensures Scan(v4, ":5:6:7:8", ":5:6:7:8", half, None, 0, false) ==
      Some(Parsed(half + [0, 5, 0, 6, 0, 7, 0, 8], Some(8)))
  {
    hide Scan;
    assert ":5:6:7:8" == ":" + "5:6:7:8";
    ScanGap(v4, "5:6:7:8", ":5:6:7:8", half);
    ScanDigit(v4, '5', "5:6:7:8", "6:7:8", half, half + [0, 5], Some(8));
    ScanDigit(v4, '6', "6:7:8", "7:8", half + [0, 5], half + [0, 5, 0, 6], Some(8));
    ScanDigit(v4, '7', "7:8", "8", half + [0, 5, 0, 6], half + [0, 5, 0, 6, 0, 7], Some(8));
    ScanLastDigit(v4, '8', half + [0, 5, 0, 6, 0, 7], half + [0, 5, 0, 6, 0, 7, 0, 8], Some(8));
  }

  /** Such a text: eight groups and a double colon in the middle are taken, and the second half is lost. */
  lemma EmptyGapWitness(v4: Ipv4)
    ensures Parse(v4, "1:2:3:4::5:6:7:8") == Some([0, 1, 0, 2, 0, 3, 0, 4, 0, 0, 0, 0, 0, 0, 0, 0])
  {
    hide Scan, Scanned;
    var half := [0, 1, 0, 2, 0, 3, 0, 4];
    ScanFirstHalf(v4);
    ScanSecondHalf(v4, half);
    var out := half + [0, 5, 0, 6, 0, 7, 0, 8];
    assert out[..8] == half;
    assert Spread(out, 8) == half + Zeros(8) == [0, 1, 0, 2, 0, 3, 0, 4, 0, 0, 0, 0, 0, 0, 0, 0];
  }
}
