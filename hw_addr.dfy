/**
 * Rendering of a hardware address as text, as `net.HardwareAddr.String()` does:
 * two lower-case hex digits per byte, separated by colons. The directory keys its
 * entries by this text and the ByEssid sorter compares it; the lemmas here show
 * that the text identifies the address and, for addresses of one length, orders
 * addresses exactly as their bytes do.
 */
module HwAddr {
  import opened GoTypes
  import opened GoStrings

  const Colon: byte := 58

  /** ASCII code of the hex digit for `n`: '0'..'9' then 'a'..'f'. */
  function HexDigit(n: int): (c: byte)
    requires 0 <= n < 16
    ensures n < 10 ==> 48 <= c <= 57
    ensures 10 <= n ==> 97 <= c <= 102
  {
    if n < 10 then 48 + n else 87 + n
  }

  function Octet(b: byte): seq<byte>
  {
    [HexDigit(b / 16), HexDigit(b % 16)]
  }

  /** `HardwareAddr.String()`: the empty address renders as the empty string. */
  function MacString(a: Mac): (s: GoString)
  {
    if |a| == 0 then [] else Octet(a[0]) + Tail(a[1..])
  }

  /** The octets after the first, each preceded by a colon. */
  function Tail(r: Mac): GoString
    decreases |r|
  {
    if |r| == 0 then [] else ([Colon] + Octet(r[0])) + Tail(r[1..])
  }

  lemma {:induction false} TailLength(r: Mac)
    ensures |Tail(r)| == 3 * |r|
    decreases |r|
  {
    if |r| > 0 {
      TailLength(r[1..]);
    }
  }

  /** An address of n > 0 bytes renders as 3n - 1 characters. */
  lemma MacStringLength(a: Mac)
    ensures |MacString(a)| == if |a| == 0 then 0 else 3 * |a| - 1
  {
    if |a| > 0 {
      TailLength(a[1..]);
    }
  }

  lemma HexDigitMonotone(m: int, n: int)
    requires 0 <= m < n < 16
    ensures HexDigit(m) < HexDigit(n)
  {
  }

  lemma OctetInjective(x: byte, y: byte)
    requires Octet(x) == Octet(y)
    ensures x == y
  {
    assert Octet(x)[0] == Octet(y)[0] && Octet(x)[1] == Octet(y)[1];
    if x / 16 != y / 16 {
      if x / 16 < y / 16 { HexDigitMonotone(x / 16, y / 16); } else { HexDigitMonotone(y / 16, x / 16); }
    }
    if x % 16 != y % 16 {
      if x % 16 < y % 16 { HexDigitMonotone(x % 16, y % 16); } else { HexDigitMonotone(y % 16, x % 16); }
    }
  }

  /** The rendered octets of two different bytes compare as the bytes do. */
  lemma OctetOrder(x: byte, y: byte)
    requires x != y
    ensures Less(Octet(x), Octet(y)) <==> x < y
  {
    var ox, oy := Octet(x), Octet(y);
    assert ox[1..] == [HexDigit(x % 16)] && oy[1..] == [HexDigit(y % 16)];
    assert [HexDigit(x % 16)][1..] == [] && [HexDigit(y % 16)][1..] == [];
    if x / 16 < y / 16 {
      HexDigitMonotone(x / 16, y / 16);
    } else if y / 16 < x / 16 {
      HexDigitMonotone(y / 16, x / 16);
    } else if x % 16 < y % 16 {
      HexDigitMonotone(x % 16, y % 16);
    } else {
      HexDigitMonotone(y % 16, x % 16);
    }
  }

  /** Two different heads of one length decide the comparison whatever follows them. */
  lemma {:induction false} LessDifferentHeads(p: GoString, q: GoString, s: GoString, t: GoString)
    requires |p| == |q| && p != q
    ensures Less(p + s, q + t) <==> Less(p, q)
    decreases |p|
  {
    if p[0] == q[0] {
      assert (p + s)[1..] == p[1..] + s && (q + t)[1..] == q[1..] + t;
      assert p == [p[0]] + p[1..] && q == [q[0]] + q[1..];
      LessDifferentHeads(p[1..], q[1..], s, t);
    }
  }

  /** Strings led by the octets of two different bytes compare as those bytes. */
  lemma OctetLead(x: byte, y: byte, s: GoString, t: GoString)
    requires x != y
    ensures Less(Octet(x) + s, Octet(y) + t) <==> x < y
  {
    LessDifferentHeads(Octet(x), Octet(y), s, t);
    OctetOrder(x, y);
  }

  /** Strings led by a colon and the octets of two different bytes compare as those bytes. */
  lemma ColonOctetLead(x: byte, y: byte, s: GoString, t: GoString)
    requires x != y
    ensures Less(([Colon] + Octet(x)) + s, ([Colon] + Octet(y)) + t) <==> x < y
  {
    assert ([Colon] + Octet(x)) + s == [Colon] + (Octet(x) + s);
    assert ([Colon] + Octet(y)) + t == [Colon] + (Octet(y) + t);
    LessCommonPrefix([Colon], Octet(x) + s, Octet(y) + t);
    OctetLead(x, y, s, t);
  }

  /** Byte strings with the same first byte compare as the rest. */
  lemma LessSameFirst(a: GoString, b: GoString)
    requires |a| > 0 && |b| > 0 && a[0] == b[0]
    ensures Less(a, b) <==> Less(a[1..], b[1..])
  {
  }

  /** Byte strings with different first bytes compare as those bytes. */
  lemma LessFirstByte(a: GoString, b: GoString)
    requires |a| > 0 && |b| > 0 && a[0] != b[0]
    ensures Less(a, b) <==> a[0] < b[0]
  {
  }

  lemma {:induction false} TailInjective(r: Mac, s: Mac)
    requires Tail(r) == Tail(s)
    ensures r == s
    decreases |r|
  {
    TailLength(r);
    TailLength(s);
    if |r| > 0 {
      assert Tail(r)[1..3] == Octet(r[0]) && Tail(s)[1..3] == Octet(s[0]);
      OctetInjective(r[0], s[0]);
      assert Tail(r)[3..] == Tail(r[1..]) && Tail(s)[3..] == Tail(s[1..]);
      TailInjective(r[1..], s[1..]);
      assert r == [r[0]] + r[1..] && s == [s[0]] + s[1..];
    }
  }

  /** The rendering identifies the address: different addresses render differently. */
  lemma MacStringInjective(a: Mac, b: Mac)
    requires MacString(a) == MacString(b)
    ensures a == b
  {
    MacStringLength(a);
    MacStringLength(b);
    if |a| > 0 {
      assert MacString(a)[..2] == Octet(a[0]) && MacString(b)[..2] == Octet(b[0]);
      OctetInjective(a[0], b[0]);
      assert MacString(a)[2..] == Tail(a[1..]) && MacString(b)[2..] == Tail(b[1..]);
      TailInjective(a[1..], b[1..]);
      assert a == [a[0]] + a[1..] && b == [b[0]] + b[1..];
    }
  }

  /** For byte sequences of one length, the colon-led renderings compare as the bytes do. */
  lemma {:induction false} TailOrder(r: Mac, s: Mac)
    requires |r| == |s|
    ensures Less(Tail(r), Tail(s)) <==> Less(r, s)
    decreases |r|
  {
    if |r| == 0 {
      LessIrreflexive(r);
    } else if r[0] != s[0] {
      ColonOctetLead(r[0], s[0], Tail(r[1..]), Tail(s[1..]));
      LessFirstByte(r, s);
    } else {
      LessCommonPrefix([Colon] + Octet(r[0]), Tail(r[1..]), Tail(s[1..]));
      TailOrder(r[1..], s[1..]);
      LessSameFirst(r, s);
    }
  }

  /**
   * For addresses of the same length, comparing the rendered strings (what the
   * ByEssid sorter does) agrees with comparing the address bytes.
   */
  lemma MacStringOrder(a: Mac, b: Mac)
    requires |a| == |b|
    ensures Less(MacString(a), MacString(b)) <==> Less(a, b)
  {
    if |a| == 0 {
      LessIrreflexive(a);
    } else if a[0] != b[0] {
      OctetLead(a[0], b[0], Tail(a[1..]), Tail(b[1..]));
      LessFirstByte(a, b);
    } else {
      LessCommonPrefix(Octet(a[0]), Tail(a[1..]), Tail(b[1..]));
      TailOrder(a[1..], b[1..]);
      LessSameFirst(a, b);
    }
  }
}
