/**
  UUIDs and their canonical text form (section 4 of RFC 9562): sixteen bytes
  written as 32 lower-case hexadecimal digits in groups of 8-4-4-4-12
  separated by '-', which is what `uuid.UUID.String` produces.
*/
module Uuids {
  import opened Base

  /** A UUID is sixteen bytes. */
  type Uuid = b: seq<byte> | |b| == 16 witness [0, 0, 0, 0, 0, 0, 0, 0, 0, 0, 0, 0, 0, 0, 0, 0]

  /** A lower-case hexadecimal digit. */
  predicate IsHexDigit(c: char)
  {
    '0' <= c <= '9' || 'a' <= c <= 'f'
  }

  /** The lower-case hexadecimal digit for `d`. */
  function HexDigit(d: nat): (c: char)
    requires d < 16
    ensures IsHexDigit(c)
  {
    if d < 10 then ('0' as int + d) as char else ('a' as int + d - 10) as char
  }

  /** The value of a lower-case hexadecimal digit, the inverse of `HexDigit`. */
  function HexValue(c: char): (r: nat)
    ensures r < 16
    ensures IsHexDigit(c) ==> HexDigit(r) == c
    ensures forall d: nat :: d < 16 && c == HexDigit(d) ==> r == d
  {
    if '0' <= c <= '9' then (c as int) - ('0' as int)
    else if 'a' <= c <= 'f' then (c as int) - ('a' as int) + 10
    else 0
  }

  /** Two digits per byte, high nibble first. */
  function Hex(bs: seq<byte>): (r: string)
    ensures |r| == 2 * |bs|
    ensures forall k :: 0 <= k < |r| ==> IsHexDigit(r[k])
    decreases |bs|
  {
    if bs == [] then ""
    else [HexDigit(bs[0] / 16), HexDigit(bs[0] % 16)] + Hex(bs[1..])
  }

  /** Reads pairs of hexadecimal digits back into bytes. */
  function FromHex(s: string): (r: seq<byte>)
    requires |s| % 2 == 0
    ensures |r| == |s| / 2
    decreases |s|
  {
    if s == "" then []
    else [HexValue(s[0]) * 16 + HexValue(s[1])] + FromHex(s[2..])
  }

  /** Hexadecimal rendering loses nothing. */
  lemma {:induction false} FromHexHex(bs: seq<byte>)
    ensures FromHex(Hex(bs)) == bs
    decreases |bs|
  {
    if bs != [] {
      var h := Hex(bs);
      assert h[2..] == Hex(bs[1..]);
      assert HexValue(h[0]) == bs[0] / 16;
      assert HexValue(h[1]) == bs[0] % 16;
      FromHexHex(bs[1..]);
    }
  }

  /** Rendering is compatible with splitting the bytes. */
  lemma {:induction false} HexAppend(a: seq<byte>, b: seq<byte>)
    ensures Hex(a + b) == Hex(a) + Hex(b)
    decreases |a|
  {
    if a == [] {
      assert a + b == b;
    } else {
      var pair := [HexDigit(a[0] / 16), HexDigit(a[0] % 16)];
      assert (a + b)[0] == a[0];
      assert (a + b)[1..] == a[1..] + b;
      HexAppend(a[1..], b);
      assert Hex(a + b) == pair + (Hex(a[1..]) + Hex(b));
    }
  }

  /** `uuid.UUID.String`: the 8-4-4-4-12 form. */
  function String(u: Uuid): (r: string)
    ensures |r| == 36
    ensures r[8] == '-' && r[13] == '-' && r[18] == '-' && r[23] == '-'
  {
    Hex(u[..4]) + "-" + Hex(u[4..6]) + "-" + Hex(u[6..8]) + "-" + Hex(u[8..10]) + "-" + Hex(u[10..])
  }

  /** The hexadecimal digits of the UUID, in the five groups of its text form. */
  lemma HexGroups(u: Uuid)
    ensures Hex(u) == Hex(u[..4]) + Hex(u[4..6]) + Hex(u[6..8]) + Hex(u[8..10]) + Hex(u[10..])
  {
    assert u == u[..4] + u[4..6] + u[6..8] + u[8..10] + u[10..];
    HexAppend(u[..4], u[4..6]);
    HexAppend(u[..4] + u[4..6], u[6..8]);
    HexAppend(u[..4] + u[4..6] + u[6..8], u[8..10]);
    HexAppend(u[..4] + u[4..6] + u[6..8] + u[8..10], u[10..]);
  }

  /** Puts the hyphens of the 8-4-4-4-12 form into 32 digits. */
  function Hyphenate(h: string): (r: string)
    requires |h| == 32
  {
    h[..8] + "-" + h[8..12] + "-" + h[12..16] + "-" + h[16..20] + "-" + h[20..]
  }

  /** Takes the hyphens back out of the 8-4-4-4-12 form. */
  function Unhyphenate(s: string): (r: string)
    requires |s| == 36
  {
    s[..8] + s[9..13] + s[14..18] + s[19..23] + s[24..]
  }

  /** Hyphenation of five groups of digits. */
  lemma HyphenateGroups(a: string, b: string, c: string, d: string, e: string)
    requires |a| == 8 && |b| == 4 && |c| == 4 && |d| == 4 && |e| == 12
    ensures Hyphenate(a + b + c + d + e) == a + "-" + b + "-" + c + "-" + d + "-" + e
  {
    var h := a + b + c + d + e;
    assert h[..8] == a;
    assert h[8..12] == b;
    assert h[12..16] == c;
    assert h[16..20] == d;
    assert h[20..] == e;
  }

  /** Removing the hyphens between five groups of digits. */
  lemma UnhyphenateGroups(a: string, b: string, c: string, d: string, e: string)
    requires |a| == 8 && |b| == 4 && |c| == 4 && |d| == 4 && |e| == 12
    ensures Unhyphenate(a + "-" + b + "-" + c + "-" + d + "-" + e) == a + b + c + d + e
  {
    var t := a + "-" + b + "-" + c + "-" + d + "-" + e;
    assert t[..8] == a;
    assert t[9..13] == b;
    assert t[14..18] == c;
    assert t[19..23] == d;
    assert t[24..] == e;
  }

  /** The text form is the hexadecimal digits with hyphens inserted, and removing them gives the digits back. */
  lemma StringGroups(u: Uuid)
    ensures Hyphenate(Hex(u)) == String(u)
    ensures Unhyphenate(String(u)) == Hex(u)
  {
    HexGroups(u);
    HyphenateGroups(Hex(u[..4]), Hex(u[4..6]), Hex(u[6..8]), Hex(u[8..10]), Hex(u[10..]));
    UnhyphenateGroups(Hex(u[..4]), Hex(u[4..6]), Hex(u[6..8]), Hex(u[8..10]), Hex(u[10..]));
  }

  /** Distinct UUIDs have distinct text forms. */
  lemma StringInjective(a: Uuid, b: Uuid)
    requires String(a) == String(b)
    ensures a == b
  {
    StringGroups(a);
    StringGroups(b);
    FromHexHex(a);
    FromHexHex(b);
  }
}
