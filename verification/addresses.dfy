/**
 * Hardware and IP addresses as the lease engine sees them: fixed-length
 * octet strings compared octet by octet, and their textual forms.
 */
module Addresses {

  type Octet = x: int | 0 <= x < 256

  /** A 6-octet hardware address (osn_mac_addr_t). */
  type Mac = s: seq<Octet> | |s| == 6 witness [0, 0, 0, 0, 0, 0]

  /** An IPv4 address as 4 octets in network order (the address part of osn_ip_addr_t). */
  type Ip = s: seq<Octet> | |s| == 4 witness [0, 0, 0, 0]

  /** OSN_IP_ADDR_INIT: the unspecified address 0.0.0.0. */
  const IpAny: Ip := [0, 0, 0, 0]

  /**
   * Three-way comparison of two equally long octet strings, in the order
   * memcmp gives them: the first differing octet decides.
   */
  function Compare(a: seq<Octet>, b: seq<Octet>): (rc: int)
    requires |a| == |b|
    ensures -1 <= rc <= 1
  {
    if |a| == 0 then 0
    else if a[0] < b[0] then -1
    else if a[0] > b[0] then 1
    else Compare(a[1..], b[1..])
  }

  /** The comparison reports equality exactly for equal strings. */
  lemma {:induction false} CompareZero(a: seq<Octet>, b: seq<Octet>)
    requires |a| == |b|
    ensures Compare(a, b) == 0 <==> a == b
  {
    if |a| > 0 {
      CompareZero(a[1..], b[1..]);
      assert a == [a[0]] + a[1..] && b == [b[0]] + b[1..];
      if a == b {
        assert a[1..] == b[1..];
      }
    }
  }

  /** Swapping the operands flips the sign. */
  lemma {:induction false} CompareFlip(a: seq<Octet>, b: seq<Octet>)
    requires |a| == |b|
    ensures Compare(b, a) == -Compare(a, b)
  {
    if |a| > 0 && a[0] == b[0] {
      CompareFlip(a[1..], b[1..]);
    }
  }

  /** "Strictly before" is transitive. */
  lemma {:induction false} CompareTrans(a: seq<Octet>, b: seq<Octet>, c: seq<Octet>)
    requires |a| == |b| == |c|
    requires Compare(a, b) < 0 && Compare(b, c) < 0
    ensures Compare(a, c) < 0
  {
    if a[0] == b[0] && b[0] == c[0] {
      CompareTrans(a[1..], b[1..], c[1..]);
    }
  }

  /** One lower-case hexadecimal digit. */
  function HexDigit(d: int): char
    requires 0 <= d < 16
  {
    if d < 10 then ('0' as int + d) as char else ('a' as int + d - 10) as char
  }

  /** An octet as two hexadecimal digits ("%02x"). */
  function Hex2(o: Octet): string
  {
    [HexDigit(o / 16), HexDigit(o % 16)]
  }

  /** The textual hardware address "xx:xx:xx:xx:xx:xx" written into the hwaddr column. */
  function MacText(m: Mac): (s: string)
    ensures |s| == 17
  {
    Hex2(m[0]) + ":" + Hex2(m[1]) + ":" + Hex2(m[2]) + ":" +
    Hex2(m[3]) + ":" + Hex2(m[4]) + ":" + Hex2(m[5])
  }

  /**
   * The layout of the hardware address text: octet k occupies characters
   * 3k and 3k+1 as two lower-case hexadecimal digits, and a colon follows
   * every octet but the last.
   */
  lemma MacTextLayout(m: Mac)
    ensures forall k :: 0 <= k < 6 ==> Hex2(m[k]) == MacText(m)[3 * k .. 3 * k + 2]
    ensures MacText(m)[2] == MacText(m)[5] == MacText(m)[8] == MacText(m)[11] == MacText(m)[14] == ':'
    ensures NoUpper(MacText(m))
  {
    var s := MacText(m);
    assert s[0..2] == Hex2(m[0]);
    assert s[3..5] == Hex2(m[1]);
    assert s[6..8] == Hex2(m[2]);
    assert s[9..11] == Hex2(m[3]);
    assert s[12..14] == Hex2(m[4]);
    assert s[15..17] == Hex2(m[5]);
    forall k | 0 <= k < 6 ensures Hex2(m[k]) == s[3 * k .. 3 * k + 2] {
      if k == 0 { } else if k == 1 { } else if k == 2 { } else if k == 3 { } else if k == 4 { } else { }
    }
    MacTextIsLower(m);
  }

  /** An octet in decimal without leading zeros. */
  function Decimal(o: Octet): string
  {
    if o < 10 then [HexDigit(o)]
    else if o < 100 then [HexDigit(o / 10), HexDigit(o % 10)]
    else [HexDigit(o / 100), HexDigit(o / 10 % 10), HexDigit(o % 10)]
  }

  /** The dotted-quad text written into the inet_addr column. */
  function IpText(ip: Ip): string
  {
    Decimal(ip[0]) + "." + Decimal(ip[1]) + "." + Decimal(ip[2]) + "." + Decimal(ip[3])
  }

  /** ASCII lower-casing of one character, as tolower does in the C locale. */
  function LowerChar(c: char): char
  {
    if 'A' <= c <= 'Z' then (c as int - 'A' as int + 'a' as int) as char else c
  }

  /** str_tolower: every character lower-cased, the length kept. */
  function Lower(s: string): (r: string)
    ensures |r| == |s|
    ensures forall i :: 0 <= i < |s| ==> r[i] == LowerChar(s[i])
    ensures NoUpper(r)
    ensures NoUpper(s) ==> r == s
  {
    seq(|s|, i requires 0 <= i < |s| => LowerChar(s[i]))
  }

  /** Lower-casing twice is lower-casing once, and no upper-case letter survives it. */
  lemma LowerIdempotent(s: string)
    ensures Lower(Lower(s)) == Lower(s)
    ensures forall i :: 0 <= i < |s| ==> !('A' <= Lower(s)[i] <= 'Z')
  {
  }

  /** No upper-case ASCII letter occurs in s. */
  predicate NoUpper(s: string)
  {
    forall i :: 0 <= i < |s| ==> !('A' <= s[i] <= 'Z')
  }

  /** Appending a separator and one more octet keeps a text free of upper case. */
  lemma NoUpperJoin(a: string, o: Octet)
    requires NoUpper(a)
    ensures NoUpper(a + ":" + Hex2(o))
  {
    var s := a + ":" + Hex2(o);
    forall i | 0 <= i < |s| ensures !('A' <= s[i] <= 'Z') {
      if i < |a| {
        assert s[i] == a[i];
      }
    }
  }

  /** The formatted hardware address is already lower case, so str_tolower keeps it. */
  lemma MacTextIsLower(m: Mac)
    ensures NoUpper(MacText(m))
    ensures Lower(MacText(m)) == MacText(m)
  {
    var h := Hex2(m[0]);
    NoUpperJoin(h, m[1]);
    NoUpperJoin(h + ":" + Hex2(m[1]), m[2]);
    NoUpperJoin(h + ":" + Hex2(m[1]) + ":" + Hex2(m[2]), m[3]);
    NoUpperJoin(h + ":" + Hex2(m[1]) + ":" + Hex2(m[2]) + ":" + Hex2(m[3]), m[4]);
    NoUpperJoin(h + ":" + Hex2(m[1]) + ":" + Hex2(m[2]) + ":" + Hex2(m[3]) + ":" + Hex2(m[4]), m[5]);
  }

  /** Hex digits are distinct. */
  lemma HexDigitInjective(x: int, y: int)
    requires 0 <= x < 16 && 0 <= y < 16
    requires HexDigit(x) == HexDigit(y)
    ensures x == y
  {
  }

  /** Two octets with the same two-digit text are equal. */
  lemma Hex2Injective(a: Octet, b: Octet)
    requires Hex2(a)[0] == Hex2(b)[0] && Hex2(a)[1] == Hex2(b)[1]
    ensures a == b
  {
    HexDigitInjective(a / 16, b / 16);
    HexDigitInjective(a % 16, b % 16);
  }

  /** Different hardware addresses have different texts, hence different store keys. */
  lemma {:induction false} MacTextInjective(a: Mac, b: Mac)
    requires MacText(a) == MacText(b)
    ensures a == b
  {
    var s, t := MacText(a), MacText(b);
    assert s[0] == t[0] && s[1] == t[1] && s[3] == t[3] && s[4] == t[4] && s[6] == t[6] && s[7] == t[7];
    assert s[9] == t[9] && s[10] == t[10] && s[12] == t[12] && s[13] == t[13] && s[15] == t[15] && s[16] == t[16];
    Hex2Injective(a[0], b[0]);
    Hex2Injective(a[1], b[1]);
    Hex2Injective(a[2], b[2]);
    Hex2Injective(a[3], b[3]);
    Hex2Injective(a[4], b[4]);
    Hex2Injective(a[5], b[5]);
    assert a == [a[0], a[1], a[2], a[3], a[4], a[5]];
    assert b == [b[0], b[1], b[2], b[3], b[4], b[5]];
  }
}
