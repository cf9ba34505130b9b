/** The part of github.com/google/uuid the service relies on: the 16-byte
    identifier, its canonical text form (UUID.String) and uuid.Parse on that
    form. */
module Uuids {
  import opened Wrappers
  import opened Strings

  type Byte = b: int | 0 <= b < 256

  /** uuid.UUID. */
  type Uuid = s: seq<Byte> | |s| == 16 witness [0, 0, 0, 0, 0, 0, 0, 0, 0, 0, 0, 0, 0, 0, 0, 0]

  /** uuid.Nil, the all-zero UUID every failing parse returns. */
  const Nil: Uuid := [0, 0, 0, 0, 0, 0, 0, 0, 0, 0, 0, 0, 0, 0, 0, 0]

  /** The lower-case digit for a value below 16, as in "0123456789abcdef". */
  function HexDigit(d: int): (c: char)
    requires 0 <= d < 16
    ensures HexValue(c) == Some(d)
  {
    if d < 10 then ('0' as int + d) as char else ('a' as int + d - 10) as char
  }

  /** The value of one hexadecimal digit of either case; None for any other rune. */
  function HexValue(c: char): (r: Option<int>)
    ensures r.Some? ==> 0 <= r.value < 16
    ensures r.Some? <==> ('0' <= c <= '9' || 'a' <= c <= 'f' || 'A' <= c <= 'F')
    ensures '0' <= c <= '9' ==> r == Some(c as int - '0' as int)
    ensures ('a' <= c <= 'f' || 'A' <= c <= 'F') ==> r == Some(LowerChar(c) as int - 'a' as int + 10)
  {
    if '0' <= c <= '9' then Some(c as int - '0' as int)
    else if 'a' <= c <= 'f' then Some(c as int - 'a' as int + 10)
    else if 'A' <= c <= 'F' then Some(c as int - 'A' as int + 10)
    else None
  }

  /** Lower-case hexadecimal, two digits per byte. */
  function Hex(bs: seq<Byte>): (r: string)
    ensures |r| == 2 * |bs|
  {
    if bs == [] then "" else [HexDigit(bs[0] / 16), HexDigit(bs[0] % 16)] + Hex(bs[1..])
  }

  /** Reads pairs of hexadecimal digits; None on an odd length or a non-digit. */
  function ParseHex(s: string): (r: Option<seq<Byte>>)
    ensures r.Some? ==> 2 * |r.value| == |s|
    decreases |s|
  {
    if s == [] then Some([])
    else if |s| == 1 then None
    else match (HexValue(s[0]), HexValue(s[1]), ParseHex(s[2..]))
      case (Some(hi), Some(lo), Some(rest)) => Some([hi * 16 + lo] + rest)
      case _ => None
  }

  /** UUID.String: xxxxxxxx-xxxx-xxxx-xxxx-xxxxxxxxxxxx in lower case. */
  function ToString(u: Uuid): (r: string)
    ensures |r| == 36
  {
    Hex(u[..4]) + "-" + Hex(u[4..6]) + "-" + Hex(u[6..8]) + "-" + Hex(u[8..10]) + "-" + Hex(u[10..])
  }

  /** uuid.Parse on 36-character input: hyphens at 8, 13, 18 and 23 and
      hexadecimal digits of either case everywhere else. */
  function Parse(s: string): (r: Option<Uuid>)
    ensures r.Some? ==> ToString(r.value) == ToLower(s)
  {
    if |s| != 36 || s[8] != '-' || s[13] != '-' || s[18] != '-' || s[23] != '-' then None
    else match ParseHex(s[..8] + s[9..13] + s[14..18] + s[19..23] + s[24..])
      case Some(bs) => ParsedToString(s, bs); Some(bs)
      case None => None
  }

  /** The digit Hex writes for a digit's value is the digit in lower case. */
  lemma HexDigitOfValue(c: char)
    requires HexValue(c).Some?
    ensures HexDigit(HexValue(c).value) == LowerChar(c)
  {
  }

  /** Whatever ParseHex reads, Hex writes back in lower case. */
  lemma {:induction false} HexOfParseHex(t: string)
    requires ParseHex(t).Some?
    ensures Hex(ParseHex(t).value) == ToLower(t)
    decreases |t|
  {
    if t != [] {
      var hi, lo := HexValue(t[0]).value, HexValue(t[1]).value;
      var rest := ParseHex(t[2..]).value;
      var bs := ParseHex(t).value;
      assert bs == [hi * 16 + lo] + rest;
      assert (hi * 16 + lo) / 16 == hi && (hi * 16 + lo) % 16 == lo;
      HexDigitOfValue(t[0]);
      HexDigitOfValue(t[1]);
      HexOfParseHex(t[2..]);
      assert bs[1..] == rest;
      assert ToLower(t) == [LowerChar(t[0]), LowerChar(t[1])] + ToLower(t[2..]);
    }
  }

  /** The UUID read from hyphenated text prints as that text in lower case. */
  lemma ParsedToString(s: string, bs: seq<Byte>)
    requires |s| == 36 && s[8] == '-' && s[13] == '-' && s[18] == '-' && s[23] == '-'
    requires ParseHex(s[..8] + s[9..13] + s[14..18] + s[19..23] + s[24..]) == Some(bs)
    ensures |bs| == 16 && ToString(bs) == ToLower(s)
  {
    var t := s[..8] + s[9..13] + s[14..18] + s[19..23] + s[24..];
    var lower := ToLower(s);
    HexOfParseHex(t);
    GroupsHex(bs);
    LowerHyphenated(s);
    SameFive(Hex(bs[..4]), Hex(bs[4..6]), Hex(bs[6..8]), Hex(bs[8..10]), Hex(bs[10..]),
      lower[..8], lower[9..13], lower[14..18], lower[19..23], lower[24..]);
  }

  /** Lower-casing hyphenated text keeps the hyphens and lower-cases the groups. */
  lemma LowerHyphenated(s: string)
    requires |s| == 36 && s[8] == '-' && s[13] == '-' && s[18] == '-' && s[23] == '-'
    ensures var lower := ToLower(s);
      && ToLower(s[..8] + s[9..13] + s[14..18] + s[19..23] + s[24..])
         == lower[..8] + lower[9..13] + lower[14..18] + lower[19..23] + lower[24..]
      && lower == lower[..8] + "-" + lower[9..13] + "-" + lower[14..18] + "-" + lower[19..23] + "-" + lower[24..]
  {
  }

  /** Two five-part concatenations with parts of equal lengths have equal parts. */
  lemma SameFive(a1: string, a2: string, a3: string, a4: string, a5: string,
                 b1: string, b2: string, b3: string, b4: string, b5: string)
    requires |a1| == |b1| && |a2| == |b2| && |a3| == |b3| && |a4| == |b4|
    requires a1 + a2 + a3 + a4 + a5 == b1 + b2 + b3 + b4 + b5
    ensures a1 == b1 && a2 == b2 && a3 == b3 && a4 == b4 && a5 == b5
  {
    var a, b := a1 + a2 + a3 + a4 + a5, b1 + b2 + b3 + b4 + b5;
    var n1, n2, n3, n4 := |a1|, |a1| + |a2|, |a1| + |a2| + |a3|, |a1| + |a2| + |a3| + |a4|;
    assert a1 == a[..n1] && b1 == b[..n1];
    assert a2 == a[n1..n2] && b2 == b[n1..n2];
    assert a3 == a[n2..n3] && b3 == b[n2..n3];
    assert a4 == a[n3..n4] && b4 == b[n3..n4];
    assert a5 == a[n4..] && b5 == b[n4..];
  }

  /** ParseHex does not see case. */
  lemma {:induction false} ParseHexIgnoresCase(s: string)
    ensures ParseHex(ToLower(s)) == ParseHex(s)
    decreases |s|
  {
    if |s| >= 2 {
      assert HexValue(LowerChar(s[0])) == HexValue(s[0]);
      assert HexValue(LowerChar(s[1])) == HexValue(s[1]);
      assert ToLower(s)[2..] == ToLower(s[2..]);
      ParseHexIgnoresCase(s[2..]);
    }
  }

  /** uuid.Parse does not see case: upper-case and mixed-case text reads as
      its lower-case form. */
  lemma ParseIgnoresCase(s: string)
    ensures Parse(ToLower(s)) == Parse(s)
  {
    if |s| == 36 {
      var lower := ToLower(s);
      assert lower[..8] + lower[9..13] + lower[14..18] + lower[19..23] + lower[24..]
        == ToLower(s[..8] + s[9..13] + s[14..18] + s[19..23] + s[24..]);
      ParseHexIgnoresCase(s[..8] + s[9..13] + s[14..18] + s[19..23] + s[24..]);
    }
  }

  /** Any casing of a UUID's text form, upper case included, parses to it. */
  lemma ParseAnyCase(s: string, u: Uuid)
    requires ToLower(s) == ToString(u)
    ensures Parse(s) == Some(u)
  {
    ParseIgnoresCase(s);
    ParseToString(u);
  }

  lemma {:induction false} HexAppend(a: seq<Byte>, b: seq<Byte>)
    ensures Hex(a + b) == Hex(a) + Hex(b)
  {
    if a == [] {
      assert a + b == b;
    } else {
      assert (a + b)[1..] == a[1..] + b;
      HexAppend(a[1..], b);
    }
  }

  lemma {:induction false} ParseHexOfHex(bs: seq<Byte>)
    ensures ParseHex(Hex(bs)) == Some(bs)
  {
    if bs != [] {
      var b := bs[0];
      var s := Hex(bs);
      assert s[0] == HexDigit(b / 16) && s[1] == HexDigit(b % 16);
      assert s[2..] == Hex(bs[1..]);
      ParseHexOfHex(bs[1..]);
      assert b / 16 * 16 + b % 16 == b;
      assert bs == [b] + bs[1..];
    }
  }

  /** Cutting the five groups back out of the hyphenated text. */
  lemma Groups(a: string, b: string, c: string, d: string, e: string)
    requires |a| == 8 && |b| == 4 && |c| == 4 && |d| == 4 && |e| == 12
    ensures var s := a + "-" + b + "-" + c + "-" + d + "-" + e;
      |s| == 36 && s[8] == '-' && s[13] == '-' && s[18] == '-' && s[23] == '-'
      && s[..8] + s[9..13] + s[14..18] + s[19..23] + s[24..] == a + b + c + d + e
  {
  }

  /** The five groups of ToString are the hexadecimal of the whole UUID. */
  lemma GroupsHex(u: Uuid)
    ensures Hex(u[..4]) + Hex(u[4..6]) + Hex(u[6..8]) + Hex(u[8..10]) + Hex(u[10..]) == Hex(u)
  {
    HexAppend(u[..4], u[4..6]);
    HexAppend(u[..4] + u[4..6], u[6..8]);
    HexAppend(u[..4] + u[4..6] + u[6..8], u[8..10]);
    HexAppend(u[..4] + u[4..6] + u[6..8] + u[8..10], u[10..]);
    assert u[..4] + u[4..6] + u[6..8] + u[8..10] + u[10..] == u;
  }

  /** Parsing the text form of a UUID gives the UUID back, so the text form is
      also injective. */
  lemma ParseToString(u: Uuid)
    ensures Parse(ToString(u)) == Some(u)
  {
    Groups(Hex(u[..4]), Hex(u[4..6]), Hex(u[6..8]), Hex(u[8..10]), Hex(u[10..]));
    GroupsHex(u);
    ParseHexOfHex(u);
  }
}
