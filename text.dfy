/** The pieces of Rust's string library the scraper leans on, with the
    semantics of `str::split`, `str::trim*`, `str::contains` and
    `u32::from_str`. */
module Text {
  import opened Errors

  // ---------------------------------------------------------------------
  // Trimming

  /** The characters for which Rust's `char::is_whitespace` holds (the
      Unicode White_Space property); `str::trim` strips these. */
  const Whitespace: set<char> := {
    '\t', '\n', '\U{000B}', '\U{000C}', '\r', ' ', '\U{0085}', '\U{00A0}',
    '\U{1680}', '\U{2000}', '\U{2001}', '\U{2002}', '\U{2003}', '\U{2004}',
    '\U{2005}', '\U{2006}', '\U{2007}', '\U{2008}', '\U{2009}', '\U{200A}',
    '\U{2028}', '\U{2029}', '\U{202F}', '\U{205F}', '\U{3000}'
  }

  /** `trim_start_matches`: drops every leading character in `cs`. */
  function TrimStart(s: string, cs: set<char>): (r: string)
    ensures |r| <= |s|
    ensures r == [] || r[0] !in cs
    ensures forall i :: 0 <= i < |s| - |r| ==> s[i] in cs
  {
    if s != [] && s[0] in cs then TrimStart(s[1..], cs) else s
  }

  /** `trim_end_matches`: drops every trailing character in `cs`. */
  function TrimEnd(s: string, cs: set<char>): (r: string)
    ensures |r| <= |s|
    ensures r == [] || r[|r| - 1] !in cs
    ensures forall i :: |r| <= i < |s| ==> s[i] in cs
  {
    if s != [] && s[|s| - 1] in cs then TrimEnd(s[..|s| - 1], cs) else s
  }

  /** Trimming keeps a contiguous part of the string: a suffix at the
      start, a prefix at the end. */
  lemma {:induction false} TrimKeepsSlices(s: string, cs: set<char>)
    ensures TrimStart(s, cs) == s[|s| - |TrimStart(s, cs)|..]
    ensures TrimEnd(s, cs) == s[..|TrimEnd(s, cs)|]
    decreases |s|
  {
    if s != [] {
      TrimKeepsSlices(s[1..], cs);
      TrimKeepsSlices(s[..|s| - 1], cs);
      assert s[..|s| - 1][..|TrimEnd(s[..|s| - 1], cs)|] == s[..|TrimEnd(s[..|s| - 1], cs)|];
    }
  }

  /** Trimming the end of a string that ends in a run of trimmed
      characters, just after a character that is kept, removes that run. */
  lemma {:induction false} TrimEndRun(s: string, run: string, cs: set<char>)
    requires forall i :: 0 <= i < |run| ==> run[i] in cs
    requires s == [] || s[|s| - 1] !in cs
    ensures TrimEnd(s + run, cs) == s
    decreases |run|
  {
    if run == [] {
      assert s + run == s;
    } else {
      var t := s + run;
      assert t[|t| - 1] == run[|run| - 1];
      assert t[..|t| - 1] == s + run[..|run| - 1];
      TrimEndRun(s, run[..|run| - 1], cs);
    }
  }

  /** Trimming the start of a string that begins with a run of trimmed
      characters, followed by a character that is kept, removes that run. */
  lemma {:induction false} TrimStartRun(run: string, s: string, cs: set<char>)
    requires forall i :: 0 <= i < |run| ==> run[i] in cs
    requires s == [] || s[0] !in cs
    ensures TrimStart(run + s, cs) == s
    decreases |run|
  {
    if run == [] {
      assert run + s == s;
    } else {
      var t := run + s;
      assert t[0] == run[0];
      assert t[1..] == run[1..] + s;
      TrimStartRun(run[1..], s, cs);
    }
  }

  /** `trim_matches` (and, with `Whitespace`, `trim`). The result neither
      starts nor ends with a trimmed character. */
  function Trim(s: string, cs: set<char>): (r: string)
    ensures |r| <= |s|
    ensures r == [] || (r[0] !in cs && r[|r| - 1] !in cs)
  {
    TrimKeepsSlices(TrimStart(s, cs), cs);
    TrimEnd(TrimStart(s, cs), cs)
  }

  /** Trimming removes exactly a leading and a trailing run of trimmed
      characters: what is kept is the slice between them. */
  lemma TrimSlice(s: string, cs: set<char>)
    ensures |s| - |TrimStart(s, cs)| + |Trim(s, cs)| <= |s|
    ensures Trim(s, cs) == s[|s| - |TrimStart(s, cs)|..|s| - |TrimStart(s, cs)| + |Trim(s, cs)|]
    ensures forall j :: 0 <= j < |s| - |TrimStart(s, cs)| ==> s[j] in cs
    ensures forall j :: |s| - |TrimStart(s, cs)| + |Trim(s, cs)| <= j < |s| ==> s[j] in cs
  {
    var t := TrimStart(s, cs);
    var i := |s| - |t|;
    TrimKeepsSlices(s, cs);
    TrimKeepsSlices(t, cs);
    assert t == s[i..];
    assert Trim(s, cs) == t[..|Trim(s, cs)|];
    assert t[..|Trim(s, cs)|] == s[i..i + |Trim(s, cs)|];
    forall j | i + |Trim(s, cs)| <= j < |s| ensures s[j] in cs {
      assert s[j] == t[j - i];
    }
  }

  lemma TrimUntouched(s: string, cs: set<char>)
    requires s == [] || (s[0] !in cs && s[|s| - 1] !in cs)
    ensures Trim(s, cs) == s
  {
  }

  // ---------------------------------------------------------------------
  // Substring search

  /** `pat` occurs in `s` starting at index `i`. */
  predicate OccursAt(s: string, pat: string, i: int)
  {
    0 <= i <= |s| - |pat| && s[i..i + |pat|] == pat
  }

  /** `str::contains` with a string pattern. The empty pattern occurs
      everywhere, and no pattern longer than the string occurs in it. */
  predicate Contains(s: string, pat: string)
    ensures pat == [] ==> Contains(s, pat)
    ensures Contains(s, pat) ==> |pat| <= |s|
  {
    assert pat == [] ==> OccursAt(s, pat, 0);
    exists i | 0 <= i <= |s| - |pat| :: OccursAt(s, pat, i)
  }

  lemma ContainsPrefix(s: string, pat: string)
    requires pat <= s
    ensures Contains(s, pat)
  {
    assert OccursAt(s, pat, 0);
  }

  lemma ContainsTooShort(s: string, pat: string)
    requires |s| < |pat|
    ensures !Contains(s, pat)
  {
  }

  lemma ContainsInPrefix(s: string, t: string, pat: string)
    requires Contains(s, pat)
    ensures Contains(s + t, pat)
  {
    var i :| 0 <= i <= |s| - |pat| && OccursAt(s, pat, i);
    assert (s + t)[i..i + |pat|] == s[i..i + |pat|];
    assert OccursAt(s + t, pat, i);
  }

  // ---------------------------------------------------------------------
  // Splitting

  /** `str::split` on one character: always at least one piece; more than
      one exactly when the separator occurs. */
  function Split(s: string, sep: char): (r: seq<string>)
    ensures |r| >= 1
    ensures |r| >= 2 <==> sep in s
    ensures forall i :: 0 <= i < |r| ==> sep !in r[i]
    decreases |s|
  {
    if s == [] then [[]]
    else
      var rest := Split(s[1..], sep);
      if s[0] == sep then [[]] + rest
      else [[s[0]] + rest[0]] + rest[1..]
  }

  /** The inverse of `Split`: the pieces glued back with the separator. */
  function Join(pieces: seq<string>, sep: char): string
    requires |pieces| >= 1
  {
    if |pieces| == 1 then pieces[0] else pieces[0] + [sep] + Join(pieces[1..], sep)
  }

  lemma {:induction false} JoinSplit(s: string, sep: char)
    ensures Join(Split(s, sep), sep) == s
    decreases |s|
  {
    if s != [] {
      JoinSplit(s[1..], sep);
      var rest := Split(s[1..], sep);
      if s[0] != sep {
        if |rest| == 1 {
        } else {
          assert ([[s[0]] + rest[0]] + rest[1..])[1..] == rest[1..];
        }
      }
    }
  }

  /** Splitting `a + b` where `a` holds no separator glues `a` to the first
      piece of `b`. */
  lemma {:induction false} SplitAfterPlain(a: string, b: string, sep: char)
    requires sep !in a
    ensures Split(a + b, sep) == [a + Split(b, sep)[0]] + Split(b, sep)[1..]
    decreases |a|
  {
    if a != [] {
      var sb := Split(b, sep);
      assert (a + b)[0] == a[0] && (a + b)[1..] == a[1..] + b;
      SplitAfterPlain(a[1..], b, sep);
      var rest := Split(a[1..] + b, sep);
      assert rest[0] == a[1..] + sb[0] && rest[1..] == sb[1..];
      assert [a[0]] + (a[1..] + sb[0]) == a + sb[0];
    } else {
      var r := Split(b, sep);
      assert a + b == b && a + r[0] == r[0];
      assert r == [r[0]] + r[1..];
    }
  }

  /** A string without the separator is a single piece. */
  lemma SplitPlain(s: string, sep: char)
    requires sep !in s
    ensures Split(s, sep) == [s]
  {
    SplitAfterPlain(s, [], sep);
    assert s + [] == s;
  }

  /** The piece before the first separator, and the split of the rest. */
  lemma SplitAtFirst(a: string, b: string, sep: char)
    requires sep !in a
    ensures Split(a + [sep] + b, sep) == [a] + Split(b, sep)
  {
    var t := [sep] + b;
    SplitAfterPlain(a, t, sep);
    assert a + [sep] + b == a + t;
    assert t[0] == sep && t[1..] == b;
    assert Split(t, sep) == [[]] + Split(b, sep);
    assert a + [] == a;
  }

  /** The first piece of "<b><tail>", where `b` holds no separator and the
      tail is empty or starts with it, is `b`. */
  lemma FirstPiece(b: string, tail: string, sep: char)
    requires sep !in b && (tail == [] || tail[0] == sep)
    ensures Split(b + tail, sep)[0] == b
  {
    if tail == [] {
      assert b + tail == b;
      SplitPlain(b, sep);
    } else {
      assert b + tail == b + [sep] + tail[1..];
      SplitAtFirst(b, tail[1..], sep);
    }
  }

  /** The second piece of "<a><sep><b><tail>", where neither `a` nor `b`
      holds the separator and the tail is empty or starts with it, is `b`. */
  lemma SecondPiece(a: string, b: string, tail: string, sep: char)
    requires sep !in a && sep !in b && (tail == [] || tail[0] == sep)
    ensures |Split(a + [sep] + b + tail, sep)| >= 2
    ensures Split(a + [sep] + b + tail, sep)[1] == b
  {
    var rest := b + tail;
    assert a + [sep] + b + tail == a + [sep] + rest;
    SplitAtFirst(a, rest, sep);
    FirstPiece(b, tail, sep);
  }

  // ---------------------------------------------------------------------
  // Unsigned 32-bit integers

  const U32Limit: nat := 0x1_0000_0000

  predicate IsDigit(c: char) { '0' <= c <= '9' }

  predicate AllDigits(s: string) { forall i :: 0 <= i < |s| ==> IsDigit(s[i]) }

  /** The value of a string of decimal digits, most significant first. */
  function DigitsValue(s: string): nat
    requires AllDigits(s)
  {
    if s == [] then 0
    else DigitsValue(s[..|s| - 1]) * 10 + (s[|s| - 1] as int - '0' as int)
  }

  /** `str::parse::<u32>`: one optional leading '+', then at least one ASCII
      digit; values of 2^32 and above overflow. */
  function ParseU32(s: string): (r: Option<nat>)
    ensures r.Some? ==> r.value < U32Limit
    ensures r.Some? ==> s != [] && (IsDigit(s[0]) || s[0] == '+')
  {
    var digits := if |s| > 1 && s[0] == '+' then s[1..] else s;
    if digits != [] && AllDigits(digits) && DigitsValue(digits) < U32Limit
    then Some(DigitsValue(digits))
    else None
  }

  /** A string parses exactly when it is one or more decimal digits,
      optionally after one '+', whose value is below 2^32; the result is
      that value. */
  lemma ParseU32Meaning(s: string)
    ensures ParseU32(s).Some? ==>
              exists d :: (s == d || s == ['+'] + d) && d != [] && AllDigits(d) && DigitsValue(d) == ParseU32(s).value
    ensures forall d :: (s == d || s == ['+'] + d) && d != [] && AllDigits(d) && DigitsValue(d) < U32Limit ==>
              ParseU32(s) == Some(DigitsValue(d))
  {
    if |s| > 1 && s[0] == '+' {
      assert s == ['+'] + s[1..];
    }
  }

  /** Decimal rendering of a number, the form in which the site writes
      years and subject ids. */
  function Decimal(n: nat): (s: string)
    ensures s != [] && AllDigits(s)
  {
    var d := ['0' + (n % 10) as char];
    if n < 10 then d else Decimal(n / 10) + d
  }

  lemma {:induction false} DecimalValue(n: nat)
    ensures DigitsValue(Decimal(n)) == n
  {
    var s := Decimal(n);
    if n >= 10 {
      DecimalValue(n / 10);
      assert s[..|s| - 1] == Decimal(n / 10);
    }
  }

  /** Every decimal rendering parses back to its number, unless it is too
      large for a `u32`. */
  lemma ParseDecimal(n: nat)
    ensures ParseU32(Decimal(n)) == if n < U32Limit then Some(n) else None
  {
    DecimalValue(n);
  }

  /** Leading zeros are accepted. */
  lemma ParseLeadingZeros()
    ensures ParseU32("007") == Some(7)
  {
    var d := "007";
    assert d[..2] == "00" && d[..2][..1] == "0";
    assert DigitsValue("0") == 0;
    assert DigitsValue("00") == 0;
    assert DigitsValue(d) == 7;
    assert AllDigits(d);
    ParseU32Meaning(d);
  }

  /** One leading '+' is accepted; a sign alone and a minus sign are not. */
  lemma ParseSigns()
    ensures ParseU32("+7") == Some(7)
    ensures ParseU32("+") == None
    ensures ParseU32("-1") == None
  {
    var d := "7";
    assert "+7" == ['+'] + d;
    assert AllDigits(d) && DigitsValue(d) == 7;
    ParseU32Meaning("+7");
    assert !IsDigit('-') && !IsDigit('+');
  }
}
