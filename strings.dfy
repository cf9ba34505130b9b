/** The parts of Go's `strings`, `unicode` and `unicode/utf8` packages the
    service relies on, over strings of Unicode scalar values. */
module Strings {

  /** The runes unicode.IsSpace accepts: the Latin-1 spaces and the other
      White_Space code points. */
  const SpaceRunes: set<char> := {
    '\t', '\n', '\U{000B}', '\U{000C}', '\r', ' ', '\U{0085}', '\U{00A0}', '\U{1680}',
    '\U{2000}', '\U{2001}', '\U{2002}', '\U{2003}', '\U{2004}', '\U{2005}', '\U{2006}',
    '\U{2007}', '\U{2008}', '\U{2009}', '\U{200A}',
    '\U{2028}', '\U{2029}', '\U{202F}', '\U{205F}', '\U{3000}'}

  /** unicode.IsSpace. */
  predicate IsSpace(c: char) {
    c in SpaceRunes
  }

  predicate AllSpace(s: string) {
    forall i | 0 <= i < |s| :: IsSpace(s[i])
  }

  /** Neither end of `s` is a space. */
  predicate Trimmed(s: string) {
    s == [] || (!IsSpace(s[0]) && !IsSpace(s[|s| - 1]))
  }

  /** `t` sits inside `s` with nothing but spaces before and after it. */
  ghost predicate Pads(s: string, t: string) {
    exists l, r :: AllSpace(l) && AllSpace(r) && s == l + t + r
  }

  /** The index of the first non-space at or after `i`; |s| when there is none. */
  function SpaceRunEnd(s: string, i: nat): (k: nat)
    requires i <= |s|
    ensures i <= k <= |s|
    ensures forall m | i <= m < k :: IsSpace(s[m])
    ensures k == |s| || !IsSpace(s[k])
    decreases |s| - i
  {
    if i < |s| && IsSpace(s[i]) then SpaceRunEnd(s, i + 1) else i
  }

  /** Going down from `j` but not below `lo`: the end of the last non-space;
      `lo` when there is none. */
  function SpaceRunStart(s: string, lo: nat, j: nat): (k: nat)
    requires lo <= j <= |s|
    ensures lo <= k <= j
    ensures forall m | k <= m < j :: IsSpace(s[m])
    ensures k == lo || !IsSpace(s[k - 1])
    decreases j
  {
    if j > lo && IsSpace(s[j - 1]) then SpaceRunStart(s, lo, j - 1) else j
  }

  /** strings.TrimSpace: the part between the first and the last non-space. */
  function TrimSpace(s: string): (r: string)
    ensures Trimmed(r)
    ensures r == [] <==> AllSpace(s)
    ensures Pads(s, r)
  {
    var start := SpaceRunEnd(s, 0);
    var stop := SpaceRunStart(s, start, |s|);
    TrimSpaceFacts(s, start, stop);
    s[start..stop]
  }

  /** The cut TrimSpace makes, from the two scans' promises. */
  lemma TrimSpaceFacts(s: string, start: nat, stop: nat)
    requires start <= stop <= |s|
    requires forall m | 0 <= m < start :: IsSpace(s[m])
    requires start == |s| || !IsSpace(s[start])
    requires forall m | stop <= m < |s| :: IsSpace(s[m])
    requires stop == start || !IsSpace(s[stop - 1])
    ensures Trimmed(s[start..stop])
    ensures s[start..stop] == [] <==> AllSpace(s)
    ensures Pads(s, s[start..stop])
  {
    var before, core, after := s[..start], s[start..stop], s[stop..];
    assert s == before + core + after;
    assert AllSpace(before) && AllSpace(after);
  }

  /** Whatever spaces surround a trimmed string, TrimSpace recovers exactly it. */
  lemma TrimSpacePadded(l: string, t: string, r: string)
    requires AllSpace(l) && AllSpace(r) && Trimmed(t)
    ensures TrimSpace(l + t + r) == t
  {
    var s := l + t + r;
    var start := SpaceRunEnd(s, 0);
    var stop := SpaceRunStart(s, start, |s|);
    assert forall m | 0 <= m < |l| :: s[m] == l[m];
    assert forall m | 0 <= m < |t| :: s[|l| + m] == t[m];
    assert forall m | 0 <= m < |r| :: s[|l| + |t| + m] == r[m];
    if t != [] {
      assert start == |l|;
      assert stop == |l| + |t|;
      assert s[start..stop] == t;
    }
  }

  /** Pads and Trimmed pin the string down: a trimmed `t` padded into `s`
      is TrimSpace(s). */
  lemma PaddedTrimmedUnique(s: string, t: string)
    requires Pads(s, t) && Trimmed(t)
    ensures TrimSpace(s) == t
  {
    var l, r :| AllSpace(l) && AllSpace(r) && s == l + t + r;
    TrimSpacePadded(l, t, r);
  }

  /** strings.Split(s, " "): the fields between single spaces, never none. */
  function Split(s: string): (r: seq<string>)
    ensures |r| >= 1
    ensures forall i | 0 <= i < |r| :: ' ' !in r[i]
  {
    if s == [] then [""]
    else
      var rest := Split(s[1..]);
      if s[0] == ' ' then [""] + rest
      else [[s[0]] + rest[0]] + rest[1..]
  }

  /** strings.Join(fields, " "). */
  function Join(fields: seq<string>): (r: string)
    ensures |fields| >= 1 ==> fields[0] <= r
    ensures |fields| >= 2 ==> fields[0] + " " <= r
  {
    if |fields| == 0 then ""
    else if |fields| == 1 then fields[0]
    else fields[0] + " " + Join(fields[1..])
  }

  lemma JoinFirst(w: string, x: string, fields: seq<string>)
    ensures Join([w + x] + fields) == w + Join([x] + fields)
  {
  }

  /** Splitting and joining again gives back the string. */
  lemma {:induction false} JoinSplit(s: string)
    ensures Join(Split(s)) == s
  {
    if s != [] {
      var rest := Split(s[1..]);
      JoinSplit(s[1..]);
      if s[0] == ' ' {
        assert ([""] + rest)[1..] == rest;
      } else {
        assert rest == [rest[0]] + rest[1..];
        JoinFirst([s[0]], rest[0], rest[1..]);
        assert s == [s[0]] + s[1..];
      }
    }
  }

  lemma {:induction false} SplitWordPrefix(w: string, t: string)
    requires ' ' !in w
    ensures Split(w + t) == [w + Split(t)[0]] + Split(t)[1..]
  {
    if w == [] {
      assert w + t == t;
      assert w + Split(t)[0] == Split(t)[0];
      assert Split(t) == [Split(t)[0]] + Split(t)[1..];
    } else {
      assert (w + t)[1..] == w[1..] + t;
      assert (w + t)[0] == w[0];
      SplitWordPrefix(w[1..], t);
      assert [w[0]] + (w[1..] + Split(t)[0]) == w + Split(t)[0];
    }
  }

  /** Joining space-free fields and splitting again gives back the fields. */
  lemma {:induction false} SplitJoin(fields: seq<string>)
    requires |fields| >= 1
    requires forall i | 0 <= i < |fields| :: ' ' !in fields[i]
    ensures Split(Join(fields)) == fields
  {
    var w := fields[0];
    if |fields| == 1 {
      SplitWordPrefix(w, "");
      assert w + "" == w;
    } else {
      var tail := fields[1..];
      SplitJoin(tail);
      assert Join(fields) == w + (" " + Join(tail));
      SplitWordPrefix(w, " " + Join(tail));
      assert (" " + Join(tail))[1..] == Join(tail);
      assert Split(" " + Join(tail)) == [""] + tail;
      assert w + "" == w;
      assert fields == [w] + tail;
    }
  }

  /** unicode/utf8.RuneLen: the number of bytes of a rune in UTF-8. */
  function RuneLen(c: char): nat {
    var n := c as int;
    if n < 0x80 then 1 else if n < 0x800 then 2 else if n < 0x10000 then 3 else 4
  }

  /** Go's `len` on a string: its length in UTF-8 bytes. */
  function Utf8Len(s: string): (n: nat)
    ensures |s| <= n <= 4 * |s|
  {
    if s == [] then 0 else RuneLen(s[0]) + Utf8Len(s[1..])
  }

  /** A one-rune string takes RuneLen bytes: two for U+0080 to U+07FF, three
      up to U+FFFF, four above. */
  lemma Utf8LenRune(c: char)
    ensures Utf8Len([c]) == RuneLen(c)
    ensures Utf8Len("\U{E9}") == 2 && Utf8Len("\U{20AC}") == 3 && Utf8Len("\U{1F426}") == 4
  {
  }

  lemma {:induction false} Utf8LenAppend(a: string, b: string)
    ensures Utf8Len(a + b) == Utf8Len(a) + Utf8Len(b)
  {
    if a != [] {
      assert (a + b)[1..] == a[1..] + b;
      Utf8LenAppend(a[1..], b);
    } else {
      assert a + b == b;
    }
  }

  /** Every rune takes between one and four bytes. */
  lemma {:induction false} Utf8LenBounds(s: string)
    ensures |s| <= Utf8Len(s) <= 4 * |s|
    ensures (forall i | 0 <= i < |s| :: s[i] as int < 0x80) ==> Utf8Len(s) == |s|
  {
    if s != [] {
      Utf8LenBounds(s[1..]);
    }
  }

  /** unicode.ToLower on one rune, exact wherever the result is ASCII: A-Z, and
      the two non-ASCII runes whose lower case is ASCII (KELVIN SIGN and LATIN
      CAPITAL LETTER I WITH DOT ABOVE). Other runes are kept. */
  function LowerChar(c: char): char {
    if 'A' <= c <= 'Z' then (c as int + 32) as char
    else if c == '\U{212A}' then 'k'
    else if c == '\U{0130}' then 'i'
    else c
  }

  /** strings.ToLower, rune by rune. */
  function ToLower(s: string): (r: string)
    ensures |r| == |s|
    ensures forall i | 0 <= i < |r| :: !('A' <= r[i] <= 'Z')
    ensures forall i | 0 <= i < |s| && 'A' <= s[i] <= 'Z' :: r[i] as int == s[i] as int + 32
    ensures forall i | 0 <= i < |s| && s[i] == '\U{212A}' :: r[i] == 'k'
    ensures forall i | 0 <= i < |s| && s[i] == '\U{0130}' :: r[i] == 'i'
    ensures forall i | 0 <= i < |s| && s[i] as int < 0x80 && !('A' <= s[i] <= 'Z') :: r[i] == s[i]
  {
    seq(|s|, i requires 0 <= i < |s| => LowerChar(s[i]))
  }
}
