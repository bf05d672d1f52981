/**
 inet_ntop6 and inet_pton6 in the form they run: loops over byte and character buffers, proved to
 compute the texts and addresses of Inet6Text.
 */
module Inet6 {
  import opened Basics
  import opened Inet6Text

  const BUFFER: nat := 46

  /** Group k once the first i bytes have been packed. */
  function PackedAt(src: seq<Byte>, i: nat, k: nat): Group
    requires |src| == 16 && i <= 16 && k < 8
  {
    if 2 * k + 1 < i then Join(src[2 * k], src[2 * k + 1]) else if 2 * k < i then Join(src[2 * k], 0) else 0
  }

  /** Pack the bytes into groups, high byte first. */
  method PackGroups(src: seq<Byte>) returns (words: array<Group>)
    requires |src| == 16
    ensures fresh(words) && words[..] == Groups(src)
  {
    words := new Group[8](_ => 0);
    for i := 0 to 16
      invariant forall k :: 0 <= k < 8 ==> words[k] == PackedAt(src, i, k)
    {
      var k := i / 2;
      var w: int := words[k];
      var b: int := src[i];
      words[k] := if i % 2 == 0 then w + b * 256 else w + b;
    }
    forall k | 0 <= k < 8 ensures words[k] == Groups(src)[k] {
      GroupsAt(src, k);
    }
  }

  lemma {:induction false} GroupsAt(bs: seq<Byte>, k: nat)
    requires |bs| % 2 == 0 && 2 * k + 1 < |bs|
    ensures Groups(bs)[k] == Join(bs[2 * k], bs[2 * k + 1])
  {
    if k > 0 {
      GroupsAt(bs[2..], k - 1);
    }
  }

  /** Find the run of zero groups to elide. */
  method FindElision(words: array<Group>) returns (best: Run)
    requires words.Length == 8
    ensures best == Elision(words[..])
    ensures IsElision(words[..], best)
  {
    best := NoRun;
    var cur := NoRun;
    for i := 0 to 8
      invariant (best, cur) == Runs(words[..], i)
    {
      if words[i] == 0 {
        cur := if cur == NoRun then Run(i, 1) else Run(cur.base, cur.len + 1);
      } else if cur != NoRun {
        if best == NoRun || cur.len > best.len {
          best := cur;
        }
        cur := NoRun;
      }
    }
    if cur != NoRun {
      if best == NoRun || cur.len > best.len {
        best := cur;
      }
    }
    if best != NoRun && best.len < 2 {
      best := NoRun;
    }
    ElisionIsFirstLongest(words[..]);
  }

  /** Append s to the first tp characters of the buffer. */
  method Append(tmp: array<char>, tp: nat, s: string) returns (end: nat)
    requires tp + |s| <= tmp.Length
    modifies tmp
    ensures end == tp + |s| && tmp[..end] == old(tmp[..tp]) + s
  {
    forall k | 0 <= k < |s| { tmp[tp + k] := s[k]; }
    end := tp + |s|;
  }

  /** One round of the formatting loop: write what group i contributes; stop after an embedded IPv4 address. */
  method FormatGroup(tmp: array<char>, tp: nat, words: array<Group>, best: Run, i: nat, v: string)
    returns (end: nat, stop: bool)
    requires words.Length == 8 && i < 8 && tp + |From(words[..], best, i, v)| <= tmp.Length
    modifies tmp
    ensures tp <= end <= tmp.Length
    ensures stop ==> tmp[..end] == old(tmp[..tp]) + From(words[..], best, i, v) && best.Run? && best.base + best.len < 8
    ensures !stop ==> tmp[..end] + From(words[..], best, i + 1, v) == old(tmp[..tp]) + From(words[..], best, i, v)
  {
    hide Hex;
    ghost var done, next := tmp[..tp], From(words[..], best, i + 1, v);
    end, stop := tp, false;
    if InRun(best, i) {
      if i == best.base {
        end := Append(tmp, end, ":");
        ConcatAssoc(done, ":", next);
      } else {
        assert "" + next == next;
      }
      return;
    }
    if i != 0 {
      end := Append(tmp, end, ":");
    }
    assert tmp[..end] == done + Colon(i);
    if i == 6 && best != NoRun && best.base == 0 && (best.len == 6 || (best.len == 5 && words[5] == 0xFFFF)) {
      end := Append(tmp, end, v);
      ConcatAssoc(done, Colon(i), v);
      stop := true;
    } else {
      end := Append(tmp, end, Hex(words[i]));
      ConcatAssoc(done, Colon(i), Hex(words[i]));
      ConcatAssoc(done, Colon(i) + Hex(words[i]), next);
    }
  }

  /** The text of an address; none when it does not fit the caller's buffer. */
  method InetNtop6(v4: Ipv4, src: seq<Byte>, size: nat) returns (dst: Option<string>)
    requires |src| == 16 && Faithful(v4)
    ensures dst == if |Print(v4, src)| + 1 > size then None else Some(Print(v4, src))
    ensures size >= BUFFER ==> dst.Some?
    ensures dst.Some? ==> Parse(v4, dst.value) == Some(src)
  {
    hide Faithful, Hex, Elision, Parse, Groups;
    var words := PackGroups(src);
    var best := FindElision(words);
    ghost var ws, text := Groups(src), Print(v4, src);
    var v := v4.ntop(src[12..]);
    PrintFits(v4, src);
    RoundTrip(v4, src);
    var tmp := new char[BUFFER];
    var tp, i, stop := 0, 0, false;
    assert tmp[..0] + text == text;
    while i < 8 && !stop
      invariant i <= 8 && tp <= tmp.Length && words[..] == ws
      invariant stop ==> tmp[..tp] == text && best.Run? && best.base + best.len < 8
      invariant !stop ==> tmp[..tp] + From(ws, best, i, v) == text
    {
      tp, stop := FormatGroup(tmp, tp, words, best, i, v);
      i := i + 1;
    }
    if best != NoRun && best.base + best.len == 8 {
      tp := Append(tmp, tp, ":");
    }
    assert tmp[..tp] == text;
    tp := tp + 1;
    if tp > size {
      return None;
    }
    return Some(tmp[..tp - 1]);
  }

  // ---------------------------------------------------------------- parsing

  /** Write the pending number as two bytes. */
  method StoreGroup(tmp: array<Byte>, tp: nat, val: Group) returns (end: nat, ok: bool)
    requires tmp.Length == 16 && tp <= 16
    modifies tmp
    ensures ok == Store(old(tmp[..tp]), val).Some?
    ensures ok ==> end == tp + 2 <= 16 && Store(old(tmp[..tp]), val) == Some(tmp[..end])
    ensures !ok ==> end == tp
    ensures forall k :: tp + 2 <= k < 16 ==> tmp[k] == old(tmp[k])
  {
    if tp + 2 > tmp.Length {
      return tp, false;
    }
    tmp[tp] := val / 256;
    tmp[tp + 1] := val % 256;
    assert tmp[..tp + 2] == old(tmp[..tp]) + Pair(val);
    return tp + 2, true;
  }

  /** The scanning loop. On success tmp[..tp] holds the bytes written. */
  method ScanSource(v4: Ipv4, src: string, from: nat, tmp: array<Byte>)
    returns (ok: bool, tp: nat, colon: Option<nat>)
    requires Faithful(v4) && from <= |src| && tmp.Length == 16 && tmp[..] == Zeros(16)
    modifies tmp
    ensures ok ==> tp <= 16 && forall k :: tp <= k < 16 ==> tmp[k] == 0
    ensures var scanned := Scan(v4, src[from..], src[from..], [], None, 0, false);
      && ok == scanned.Some?
      && (ok ==> tp <= 16 && scanned == Some(Parsed(tmp[..tp], colon)) && (colon.Some? ==> colon.value <= tp))
  {
    hide DigitValue, Store, Faithful;
    ghost var goal := Scan(v4, src[from..], src[from..], [], None, 0, false);
    var i, cur, saw := from, from, false;
    var val: Group := 0;
    tp, colon := 0, None;
    assert tmp[..0] == [];
    while i < |src|
      invariant from <= cur <= i <= |src| && tp <= 16 && (colon.Some? ==> colon.value <= tp)
      invariant forall k :: tp <= k < 16 ==> tmp[k] == 0
      invariant Scan(v4, src[i..], src[cur..], tmp[..tp], colon, val, saw) == goal
    {
      var c := src[i];
      assert src[i..][0] == c && src[i..][1..] == src[i + 1..];
      i := i + 1;
      var d := DigitValue(c);
      if d >= 0 {
        var next: int := val * 16 + d;
        if next > 0xFFFF {
          return false, 0, None;
        }
        val := next;
        saw := true;
      } else if c == ':' {
        cur := i;
        if !saw {
          if colon.Some? {
            return false, 0, None;
          }
          colon := Some(tp);
        } else {
          var stored;
          tp, stored := StoreGroup(tmp, tp, val);
          if !stored {
            return false, 0, None;
          }
          saw, val := false, 0;
        }
      } else {
        if c != '.' || tp + 4 > 16 {
          return false, 0, None;
        }
        var quad := v4.pton(src[cur..]);
        if quad.None? {
          return false, 0, None;
        }
        QuadLength(v4, src[cur..]);
        ghost var before := tmp[..tp];
        forall k | 0 <= k < 4 { tmp[tp + k] := quad.value[k]; }
        tp := tp + 4;
        assert tmp[..tp] == before + quad.value;
        return true, tp, colon;
      }
    }
    assert src[i..] == [];
    ok := true;
    if saw {
      tp, ok := StoreGroup(tmp, tp, val);
    }
  }

  lemma QuadLength(v4: Ipv4, s: string)
    requires Faithful(v4) && v4.pton(s).Some?
    ensures |v4.pton(s).value| == 4
  {
  }

  /** Shift what follows the double colon to the end of the buffer, byte by byte from the back. */
  method ShiftTail(tmp: array<Byte>, tp: nat, colon: nat)
    requires tmp.Length == 16 && colon <= tp <= 16
    requires forall k :: tp <= k < 16 ==> tmp[k] == 0
    modifies tmp
    ensures tmp[..] == Spread(old(tmp[..tp]), colon)
  {
    ghost var out := tmp[..tp];
    var n := tp - colon;
    var i := 1;
    while i <= n
      invariant 1 <= i <= n + 1
      invariant forall k :: 0 <= k <= tp - i ==> k < tp - i + 1 && tmp[k] == out[k]
      invariant tp < 16 ==> forall k :: 16 - i < k < 16 ==> tmp[k] == out[k - (16 - tp)]
      invariant forall k :: tp - i < k < 16 && (tp == 16 || k <= 16 - i) ==> tmp[k] == 0
    {
      tmp[16 - i] := tmp[colon + n - i];
      tmp[colon + n - i] := 0;
      i := i + 1;
    }
    assert tmp[..] == Spread(out, colon);
  }

  /** The address a text stands for; none when the text is not one. */
  method InetPton6(v4: Ipv4, src: string) returns (dst: Option<seq<Byte>>)
    requires Faithful(v4)
    ensures dst == Parse(v4, src)
    ensures forall bs: seq<Byte> :: |bs| == 16 && src == Print(v4, bs) ==> dst == Some(bs)
  {
    hide Scan, Spread, Print, Faithful;
    forall bs: seq<Byte> | |bs| == 16 && src == Print(v4, bs) ensures Parse(v4, src) == Some(bs) {
      RoundTrip(v4, bs);
    }
    var tmp := new Byte[16](_ => 0);
    var from := 0;
    if src != [] && src[0] == ':' {
      if |src| < 2 || src[1] != ':' {
        return None;
      }
      from := 1;
    }
    assert src[0..] == src;
    var ok, tp, colon := ScanSource(v4, src, from, tmp);
    if !ok {
      return None;
    }
    if colon.Some? {
      ShiftTail(tmp, tp, colon.value);
      tp := 16;
    }
    if tp != 16 {
      return None;
    }
    assert colon.None? ==> tmp[..tp] == tmp[..];
    return Some(tmp[..]);
  }
}
