/**
 Dotted decimal: a printer and parser of IPv4 addresses that meet what the IPv6 code needs of the
 system's, so that the statements about the IPv6 code are about something.
 */
module Ipv4Text {
  import opened Basics
  import opened Inet6Text

  function Digit(d: int): char
    requires 0 <= d < 10
  {
    '0' + d as char
  }

  function Dec(x: Byte): string {
    if x < 10 then [Digit(x)]
    else if x < 100 then [Digit(x / 10), Digit(x % 10)]
    else [Digit(x / 100), Digit(x / 10 % 10), Digit(x % 10)]
  }

  function DecValue(s: string): int {
    if s == [] then 0 else DecValue(s[..|s| - 1]) * 10 + (s[|s| - 1] as int - '0' as int)
  }

  lemma DecDigits(x: Byte)
    ensures 1 <= |Dec(x)| <= 3 && forall i :: 0 <= i < |Dec(x)| ==> Decimal(Dec(x)[i])
  {
  }

  lemma DecInverse(x: Byte)
    ensures DecValue(Dec(x)) == x
  {
    var s := Dec(x);
    if x < 10 {
      assert s[..0] == [];
    } else if x < 100 {
      assert s[..1] == [Digit(x / 10)] && s[..1][..0] == [];
      assert DecValue(s[..1]) == x / 10;
    } else {
      assert s[..2] == [Digit(x / 100), Digit(x / 10 % 10)] && s[..2][..1] == [Digit(x / 100)] && s[..1][..0] == [];
      assert DecValue(s[..1]) == x / 100;
      assert DecValue(s[..2]) == x / 100 * 10 + x / 10 % 10;
    }
  }

  function Quad(b: seq<Byte>): string
    requires |b| == 4
  {
    Dec(b[0]) + ("." + (Dec(b[1]) + ("." + (Dec(b[2]) + ("." + Dec(b[3]))))))
  }

  /** Digits and a dot can be taken off the front in one way only. */
  lemma SplitDot(a: Byte, b: Byte, x: string, y: string)
    requires Dec(a) + ("." + x) == Dec(b) + ("." + y)
    ensures a == b && x == y
  {
    DecDigits(a);
    DecDigits(b);
    var s, p, q := Dec(a) + ("." + x), Dec(a), Dec(b);
    hide Dec;
    assert s[|p|] == '.' && s[|q|] == '.';
    assert forall i :: 0 <= i < |p| ==> s[i] == p[i];
    assert forall i :: 0 <= i < |q| ==> s[i] == q[i];
    assert |p| == |q|;
    assert p == s[..|p|] == q;
    assert x == s[|p| + 1..] == y;
    DecInverse(a);
    DecInverse(b);
  }

  lemma QuadInjective(b: seq<Byte>, c: seq<Byte>)
    requires |b| == 4 && |c| == 4 && Quad(b) == Quad(c)
    ensures b == c
  {
    hide Dec;
    SplitDot(b[0], c[0], Dec(b[1]) + ("." + (Dec(b[2]) + ("." + Dec(b[3])))),
             Dec(c[1]) + ("." + (Dec(c[2]) + ("." + Dec(c[3])))));
    SplitDot(b[1], c[1], Dec(b[2]) + ("." + Dec(b[3])), Dec(c[2]) + ("." + Dec(c[3])));
    SplitDot(b[2], c[2], Dec(b[3]), Dec(c[3]));
    DecInverse(b[3]);
    DecInverse(c[3]);
  }

  lemma QuadForm(b: seq<Byte>)
    requires |b| == 4
    ensures |Quad(b)| <= 15 && Dotted(Quad(b))
  {
    DecDigits(b[0]);
    DecDigits(b[1]);
    DecDigits(b[2]);
    DecDigits(b[3]);
    hide Dec;
    assert DottedAt(Quad(b), |Dec(b[0])|);
  }

  ghost function Unquad(s: string): Option<seq<Byte>> {
    if exists b: seq<Byte> :: |b| == 4 && Quad(b) == s then
      var b: seq<Byte> :| |b| == 4 && Quad(b) == s;
      Some(b)
    else None
  }

  lemma UnquadLength(s: string)
    requires Unquad(s).Some?
    ensures |Unquad(s).value| == 4
  {
  }

  lemma QuadBack(b: seq<Byte>)
    requires |b| == 4
    ensures Unquad(Quad(b)) == Some(b)
  {
    hide Quad;
    QuadInjective(b, Unquad(Quad(b)).value);
  }

  /** Helpers of the kind the IPv6 code relies on exist. */
  lemma FaithfulExists()
    ensures exists v4 :: Faithful(v4)
  {
    hide Quad, Dotted, Unquad;
    var v4 := Ipv4(b => if |b| == 4 then Quad(b) else "", s => Unquad(s));
    forall b: seq<Byte> | |b| == 4
      ensures |v4.ntop(b)| <= 15 && Dotted(v4.ntop(b)) && v4.pton(v4.ntop(b)) == Some(b)
    {
      QuadForm(b);
      QuadBack(b);
    }
    forall s: string | v4.pton(s).Some? ensures |v4.pton(s).value| == 4 {
      UnquadLength(s);
    }
    assert Faithful(v4);
  }
}
