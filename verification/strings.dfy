/**
 The string and byte primitives the client relies on: substring search
 (Rust's `str::contains`), left-to-right replacement (`str::replace`),
 decimal rendering of an unsigned integer (`{}`), lower-case hex rendering
 of a byte slice (`{:x}`), ASCII upper-casing (`to_uppercase` on hex text)
 and the ASCII view of a string as bytes (`as_bytes`).
 */
module Strings {
  import opened Wrappers

  newtype byte = x: int | 0 <= x < 256

  // ---------------------------------------------------------------------
  // Substring search

  /** `pat` occurs in `s` starting at index `i`. */
  predicate OccursAt(s: string, pat: string, i: int)
  {
    0 <= i && i + |pat| <= |s| && s[i..i + |pat|] == pat
  }

  /** Rust's `s.contains(pat)`. */
  predicate Contains(s: string, pat: string)
  {
    exists i | 0 <= i <= |s| - |pat| :: OccursAt(s, pat, i)
  }

  /** Dropping the first character cannot create an occurrence. */
  lemma AbsentInTail(s: string, pat: string)
    requires |s| > 0 && !Contains(s, pat)
    ensures !Contains(s[1..], pat)
  {
    forall i | 0 <= i <= |s[1..]| - |pat|
      ensures !OccursAt(s[1..], pat, i)
    {
      assert !OccursAt(s, pat, i + 1);
      assert s[1..][i..i + |pat|] == s[i + 1..i + 1 + |pat|];
    }
  }

  /** A string lacking one of the pattern's characters cannot contain it. */
  lemma AbsentByMissingChar(s: string, pat: string, j: int)
    requires 0 <= j < |pat| && pat[j] !in s
    ensures !Contains(s, pat)
  {
    forall i | 0 <= i <= |s| - |pat|
      ensures !OccursAt(s, pat, i)
    {
      assert s[i..i + |pat|][j] == s[i + j];
      assert s[i + j] in s;
    }
  }

  /**
   Gluing two strings free of `pat` stays free of `pat` as long as one of
   the two characters meeting at the seam is foreign to `pat`.
   */
  lemma AbsentInConcat(a: string, b: string, pat: string)
    requires !Contains(a, pat) && !Contains(b, pat)
    requires (|a| > 0 && a[|a| - 1] !in pat) || (|b| > 0 && b[0] !in pat)
    ensures !Contains(a + b, pat)
  {
    var s := a + b;
    forall i | 0 <= i <= |s| - |pat|
      ensures !OccursAt(s, pat, i)
    {
      var w := s[i..i + |pat|];
      if i + |pat| <= |a| {
        assert w == a[i..i + |pat|];
        assert !OccursAt(a, pat, i);
      } else if i >= |a| {
        assert w == b[i - |a|..i - |a| + |pat|];
        assert !OccursAt(b, pat, i - |a|);
      } else {
        assert w[|a| - 1 - i] == a[|a| - 1] && w[|a| - i] == b[0];
        assert pat[|a| - 1 - i] in pat && pat[|a| - i] in pat;
      }
    }
  }

  // ---------------------------------------------------------------------
  // Replacement

  /**
   Rust's `s.replace(pat, rep)`: scans left to right and rewrites every
   non-overlapping occurrence of `pat`; the inserted text is never rescanned.
   */
  function Replace(s: string, pat: string, rep: string): (r: string)
    requires |pat| > 0
    ensures rep == pat ==> r == s
    ensures |rep| == |pat| ==> |r| == |s|
    decreases |s|
  {
    if |s| < |pat| then s
    else if s[..|pat|] == pat then rep + Replace(s[|pat|..], pat, rep)
    else [s[0]] + Replace(s[1..], pat, rep)
  }

  lemma ContainsSelf(pat: string)
    ensures Contains(pat, pat)
  {
    assert OccursAt(pat, pat, 0);
  }

  /** With no occurrence of the pattern, replacement is the identity. */
  lemma {:induction false} ReplaceAbsent(s: string, pat: string, rep: string)
    requires |pat| > 0 && !Contains(s, pat)
    ensures Replace(s, pat, rep) == s
    decreases |s|
  {
    if |s| >= |pat| {
      assert !OccursAt(s, pat, 0);
      AbsentInTail(s, pat);
      ReplaceAbsent(s[1..], pat, rep);
    }
  }

  /**
   A prefix that holds no occurrence of `pat`, and whose last character
   (or the suffix's first) cannot be part of one straddling the seam, is
   copied unchanged.
   */
  lemma {:induction false} ReplaceSkipsPrefix(p: string, t: string, pat: string, rep: string)
    requires |pat| > 0 && !Contains(p, pat)
    requires (|p| > 0 ==> p[|p| - 1] !in pat) || (|t| > 0 && t[0] !in pat)
    ensures Replace(p + t, pat, rep) == p + Replace(t, pat, rep)
    decreases |p|
  {
    if |p| == 0 {
      assert p + t == t;
    } else if |p + t| < |pat| {
      assert |t| < |pat|;
    } else {
      NoOccurrenceAtStart(p, t, pat);
      ReplaceCopiesHead(p + t, pat, rep);
      AbsentInTail(p, pat);
      assert (p + t)[1..] == p[1..] + t;
      ReplaceSkipsPrefix(p[1..], t, pat, rep);
      Associative([p[0]], p[1..], Replace(t, pat, rep));
      assert [p[0]] + p[1..] == p;
    }
  }

  /** Without an occurrence at the start, the first character is copied. */
  lemma ReplaceCopiesHead(s: string, pat: string, rep: string)
    requires 0 < |pat| <= |s| && s[..|pat|] != pat
    ensures Replace(s, pat, rep) == [s[0]] + Replace(s[1..], pat, rep)
  {
  }

  /** The conditions of `ReplaceSkipsPrefix` rule out an occurrence at the start. */
  lemma NoOccurrenceAtStart(p: string, t: string, pat: string)
    requires |pat| > 0 && !Contains(p, pat) && |p| > 0 && |p + t| >= |pat|
    requires p[|p| - 1] !in pat || (|t| > 0 && t[0] !in pat)
    ensures (p + t)[..|pat|] != pat
  {
    var s := p + t;
    if |pat| <= |p| {
      assert s[..|pat|] == p[0..|pat|];
      assert !OccursAt(p, pat, 0);
    } else if p[|p| - 1] !in pat {
      assert s[..|pat|][|p| - 1] == p[|p| - 1];
      assert pat[|p| - 1] in pat;
    } else {
      assert s[..|pat|][|p|] == t[0];
      assert pat[|p|] in pat;
    }
  }

  /**
   Replacement distributes over a split point that no occurrence can
   straddle: when the second part starts with a character foreign to `pat`,
   each part is rewritten on its own, whatever the first part holds.
   */
  lemma {:induction false} ReplaceAppend(x: string, rest: string, pat: string, rep: string)
    requires |pat| > 0 && |rest| > 0 && rest[0] !in pat
    ensures Replace(x + rest, pat, rep) == Replace(x, pat, rep) + Replace(rest, pat, rep)
    decreases |x|
  {
    var s := x + rest;
    if |x| == 0 {
      assert s == rest;
    } else if |s| >= |pat| && s[..|pat|] == pat {
      OccurrenceOverSeam(x, rest, pat);
      assert x[..|pat|] == pat;
      assert s[|pat|..] == x[|pat|..] + rest;
      ReplaceAppend(x[|pat|..], rest, pat, rep);
      Associative(rep, Replace(x[|pat|..], pat, rep), Replace(rest, pat, rep));
    } else {
      if |s| >= |pat| {
        ReplaceCopiesHead(s, pat, rep);
      }
      assert s[1..] == x[1..] + rest;
      ReplaceAppend(x[1..], rest, pat, rep);
      ReplaceHeadOfShort(x, rest, pat, rep);
      Associative([x[0]], Replace(x[1..], pat, rep), Replace(rest, pat, rep));
    }
  }

  /** An occurrence at the start of `x + rest` that reaches past `x` holds `rest[0]`. */
  lemma OccurrenceOverSeam(x: string, rest: string, pat: string)
    requires |rest| > 0 && |x + rest| >= |pat| && (x + rest)[..|pat|] == pat
    ensures |x| < |pat| ==> rest[0] in pat
  {
    if |x| < |pat| {
      assert pat[|x|] == rest[0];
    }
  }

  /** Without an occurrence at its start, `x` keeps its first character. */
  lemma ReplaceHeadOfShort(x: string, rest: string, pat: string, rep: string)
    requires |pat| > 0 && |x| > 0
    requires |x + rest| >= |pat| ==> (x + rest)[..|pat|] != pat
    ensures Replace(x, pat, rep) == [x[0]] + Replace(x[1..], pat, rep)
  {
    if |x| >= |pat| {
      assert x[..|pat|] == (x + rest)[..|pat|];
    } else {
      assert [x[0]] + x[1..] == x;
    }
  }

  /**
   The workhorse for template filling: one occurrence of `pat`, surrounded
   by text that holds none and cannot form one across the seam, is
   rewritten to exactly `rep`, and nothing else changes.
   */
  lemma ReplaceSplice(p: string, pat: string, t: string, rep: string)
    requires |pat| > 0 && !Contains(p, pat) && !Contains(t, pat)
    requires |p| > 0 ==> p[|p| - 1] !in pat
    ensures Replace(p + pat + t, pat, rep) == p + rep + t
  {
    ReplaceSkipsPrefix(p, pat + t, pat, rep);
    ReplaceAtHead(pat, t, rep);
    ReplaceAbsent(t, pat, rep);
    Associative(p, pat, t);
    Associative(p, rep, t);
  }

  /** An occurrence at the very start is rewritten and scanning resumes after it. */
  lemma ReplaceAtHead(pat: string, t: string, rep: string)
    requires |pat| > 0
    ensures Replace(pat + t, pat, rep) == rep + Replace(t, pat, rep)
  {
    var u := pat + t;
    assert u[..|pat|] == pat && u[|pat|..] == t;
  }

  lemma Associative<T>(a: seq<T>, b: seq<T>, c: seq<T>)
    ensures a + b + c == a + (b + c)
  {
  }

  // ---------------------------------------------------------------------
  // Decimal rendering of unsigned integers

  predicate IsDigit(c: char)
  {
    '0' <= c <= '9'
  }

  function DigitChar(d: nat): (c: char)
    requires d < 10
    ensures IsDigit(c)
  {
    ('0' as int + d) as char
  }

  function DigitValue(c: char): (d: nat)
    requires IsDigit(c)
    ensures d < 10 && DigitChar(d) == c
  {
    c as int - '0' as int
  }

  /** Rust's `{}` for an unsigned integer: shortest decimal form, no sign. */
  function Decimal(n: nat): (r: string)
    ensures |r| > 0 && forall i | 0 <= i < |r| :: IsDigit(r[i])
    ensures |r| > 1 ==> r[0] != '0'
    decreases n
  {
    if n < 10 then [DigitChar(n)] else Decimal(n / 10) + [DigitChar(n % 10)]
  }

  /** Reads a string of decimal digits back as a number. */
  function DecimalValue(s: string): nat
    requires forall i | 0 <= i < |s| :: IsDigit(s[i])
    decreases |s|
  {
    if |s| == 0 then 0 else DecimalValue(s[..|s| - 1]) * 10 + DigitValue(s[|s| - 1])
  }

  lemma {:induction false} DecimalRoundTrip(n: nat)
    ensures DecimalValue(Decimal(n)) == n
    decreases n
  {
    if n >= 10 {
      var r := Decimal(n);
      assert r[..|r| - 1] == Decimal(n / 10);
      DecimalRoundTrip(n / 10);
    }
  }

  /** Distinct numbers render to distinct decimal strings. */
  lemma DecimalInjective(m: nat, n: nat)
    requires Decimal(m) == Decimal(n)
    ensures m == n
  {
    DecimalRoundTrip(m);
    DecimalRoundTrip(n);
  }

  // ---------------------------------------------------------------------
  // Hex rendering

  function LowerHexDigit(d: nat): (c: char)
    requires d < 16
  {
    if d < 10 then DigitChar(d) else ('a' as int + (d - 10)) as char
  }

  predicate IsLowerHexDigit(c: char)
  {
    IsDigit(c) || 'a' <= c <= 'f'
  }

  /** One byte in `{:x}`: two lower-case digits, high nibble first. */
  function LowerHexByte(b: byte): (r: string)
    ensures |r| == 2 && IsLowerHexDigit(r[0]) && IsLowerHexDigit(r[1])
  {
    [LowerHexDigit(b as nat / 16), LowerHexDigit(b as nat % 16)]
  }

  /** The `{:x}` rendering of a byte slice: two lower-case digits per byte. */
  function LowerHex(bs: seq<byte>): (r: string)
    ensures |r| == 2 * |bs|
    ensures forall i | 0 <= i < |r| :: IsLowerHexDigit(r[i])
  {
    if |bs| == 0 then "" else LowerHexByte(bs[0]) + LowerHex(bs[1..])
  }

  function AsciiUpperChar(c: char): char
  {
    if 'a' <= c <= 'z' then (c as int - 32) as char else c
  }

  /** `to_uppercase` restricted to ASCII: lower-case letters map to upper case. */
  function AsciiUpper(s: string): (r: string)
    ensures |r| == |s|
    ensures forall i | 0 <= i < |s| :: r[i] == AsciiUpperChar(s[i])
  {
    if |s| == 0 then "" else [AsciiUpperChar(s[0])] + AsciiUpper(s[1..])
  }

  predicate IsUpperHexDigit(c: char)
  {
    IsDigit(c) || 'A' <= c <= 'F'
  }

  function UpperHexValue(c: char): (d: nat)
    requires IsUpperHexDigit(c)
    ensures d < 16
  {
    if IsDigit(c) then DigitValue(c) else c as int - 'A' as int + 10
  }

  /** Reads upper-case hex text, two digits per byte, back into bytes. */
  function ParseUpperHex(s: string): Option<seq<byte>>
    decreases |s|
  {
    if |s| == 0 then Some([])
    else if |s| == 1 || !IsUpperHexDigit(s[0]) || !IsUpperHexDigit(s[1]) then None
    else
      match ParseUpperHex(s[2..])
      case None => None
      case Some(rest) => Some([(UpperHexValue(s[0]) * 16 + UpperHexValue(s[1])) as byte] + rest)
  }

  lemma UpperHexDigitOfLower(d: nat)
    requires d < 16
    ensures IsUpperHexDigit(AsciiUpperChar(LowerHexDigit(d)))
    ensures UpperHexValue(AsciiUpperChar(LowerHexDigit(d))) == d
  {
  }

  /** The two upper-cased digits of one byte read back as that byte. */
  lemma UpperHexPair(b: byte)
    ensures var u := AsciiUpper(LowerHexByte(b));
      && IsUpperHexDigit(u[0]) && IsUpperHexDigit(u[1])
      && (UpperHexValue(u[0]) * 16 + UpperHexValue(u[1])) as byte == b
  {
    UpperHexDigitOfLower(b as nat / 16);
    UpperHexDigitOfLower(b as nat % 16);
  }

  lemma AsciiUpperAppend(a: string, b: string)
    ensures AsciiUpper(a + b) == AsciiUpper(a) + AsciiUpper(b)
  {
    assert forall i | 0 <= i < |a + b| :: AsciiUpper(a + b)[i] == (AsciiUpper(a) + AsciiUpper(b))[i];
  }

  /**
   Upper-casing the `{:x}` rendering gives upper-case hex digits only, and
   reading them back yields the original bytes.
   */
  lemma UpperHexRoundTrip(bs: seq<byte>)
    ensures forall i | 0 <= i < 2 * |bs| :: IsUpperHexDigit(AsciiUpper(LowerHex(bs))[i])
    ensures ParseUpperHex(AsciiUpper(LowerHex(bs))) == Some(bs)
  {
    UpperOfLowerHexDigits(LowerHex(bs));
    ParseUpperOfLowerHex(bs);
  }

  lemma UpperOfLowerHexDigits(s: string)
    requires forall i | 0 <= i < |s| :: IsLowerHexDigit(s[i])
    ensures forall i | 0 <= i < |s| :: IsUpperHexDigit(AsciiUpper(s)[i])
  {
  }

  lemma {:induction false} ParseUpperOfLowerHex(bs: seq<byte>)
    ensures ParseUpperHex(AsciiUpper(LowerHex(bs))) == Some(bs)
  {
    if |bs| > 0 {
      var pair, tail := AsciiUpper(LowerHexByte(bs[0])), AsciiUpper(LowerHex(bs[1..]));
      var u := AsciiUpper(LowerHex(bs));
      UpperHexCons(bs);
      UpperHexPair(bs[0]);
      ParseUpperOfLowerHex(bs[1..]);
      assert u[0] == pair[0] && u[1] == pair[1] && u[2..] == tail;
      assert [bs[0]] + bs[1..] == bs;
    }
  }

  lemma UpperHexCons(bs: seq<byte>)
    requires |bs| > 0
    ensures AsciiUpper(LowerHex(bs)) == AsciiUpper(LowerHexByte(bs[0])) + AsciiUpper(LowerHex(bs[1..]))
  {
    AsciiUpperAppend(LowerHexByte(bs[0]), LowerHex(bs[1..]));
  }

  // ---------------------------------------------------------------------
  // ASCII bytes

  predicate IsAscii(s: string)
  {
    forall i | 0 <= i < |s| :: s[i] as int < 128
  }

  /** `s.as_bytes()` for a string whose characters are all ASCII. */
  function AsciiBytes(s: string): (r: seq<byte>)
    requires IsAscii(s)
    ensures |r| == |s| && forall i | 0 <= i < |s| :: r[i] as int == s[i] as int
  {
    if |s| == 0 then [] else [s[0] as int as byte] + AsciiBytes(s[1..])
  }
}
