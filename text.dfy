/**
  * The few string operations of Rust's standard library that the parser and the
  * row renderer rely on: `str::find`, `str::split`, `str::split_once`, and the
  * decimal rendering of an unsigned integer. Strings are sequences of characters;
  * every token the parser measures is assumed to be ASCII, so a length in bytes
  * and a length in characters agree.
  */
module Text {
  import opened Wrappers

  /** `pat` occurs in `s` starting at index `j`. */
  predicate OccursAt(s: string, pat: string, j: nat) {
    j + |pat| <= |s| && s[j..j + |pat|] == pat
  }

  /** The leftmost occurrence of `pat` at index `from` or later. */
  function FindFrom(s: string, pat: string, from: nat): (r: Option<nat>)
    requires |pat| > 0
    ensures r.Some? ==> from <= r.value && OccursAt(s, pat, r.value)
    ensures r.Some? ==> forall j: nat :: from <= j < r.value ==> !OccursAt(s, pat, j)
    ensures r.None? ==> forall j: nat :: from <= j ==> !OccursAt(s, pat, j)
    decreases |s| - from
  {
    if from + |pat| > |s| then None
    else if OccursAt(s, pat, from) then Some(from)
    else FindFrom(s, pat, from + 1)
  }

  /** The leftmost occurrence of a non-empty pattern, as `str::find` returns it. */
  function FindFirst(s: string, pat: string): (r: Option<nat>)
    requires |pat| > 0
    ensures r.Some? ==> OccursAt(s, pat, r.value)
    ensures r.Some? ==> forall j: nat :: j < r.value ==> !OccursAt(s, pat, j)
    ensures r.None? ==> forall j: nat :: !OccursAt(s, pat, j)
  {
    FindFrom(s, pat, 0)
  }

  /** An occurrence with none before it is the one `FindFirst` reports. */
  lemma FindFirstIs(s: string, pat: string, i: nat)
    requires |pat| > 0 && OccursAt(s, pat, i)
    requires forall j: nat :: j < i ==> !OccursAt(s, pat, j)
    ensures FindFirst(s, pat) == Some(i)
  {
    var r := FindFirst(s, pat);
    assert r.Some?;
    assert !(r.value < i);
    assert !(i < r.value);
  }

  /** Once the leftmost occurrence lies inside `a`, appending text does not move it. */
  lemma FindFirstExtends(a: string, b: string, pat: string)
    requires |pat| > 0 && FindFirst(a, pat).Some?
    ensures FindFirst(a + b, pat) == FindFirst(a, pat)
  {
    var i := FindFirst(a, pat).value;
    assert (a + b)[i..i + |pat|] == a[i..i + |pat|];
    forall j: nat | j < i ensures !OccursAt(a + b, pat, j) {
      assert !OccursAt(a, pat, j);
      assert (a + b)[j..j + |pat|] == a[j..j + |pat|];
    }
    FindFirstIs(a + b, pat, i);
  }

  /** The pieces of `s` between the leftmost non-overlapping occurrences of `sep`, as `str::split`. */
  function Split(s: string, sep: string): (r: seq<string>)
    requires |sep| > 0
    ensures |r| >= 1
    ensures Join(r, sep) == s
    decreases |s|
  {
    match FindFirst(s, sep)
    case None => [s]
    case Some(i) =>
      var rest := Split(s[i + |sep|..], sep);
      assert ([s[..i]] + rest)[1..] == rest;
      assert s == s[..i] + sep + s[i + |sep|..] by {
        assert s[i..i + |sep|] == sep;
      }
      [s[..i]] + rest
  }

  /** The pieces glued back together with `sep` between neighbours. */
  function Join(pieces: seq<string>, sep: string): string {
    if |pieces| == 0 then ""
    else if |pieces| == 1 then pieces[0]
    else pieces[0] + sep + Join(pieces[1..], sep)
  }

  /** `x` followed by `sep` is split exactly after `x`: no separator starts earlier. */
  predicate EndsBeforeSeparator(x: string, sep: string)
    requires |sep| > 0
  {
    FindFirst(x + sep, sep) == Some(|x|)
  }

  /** Splitting re-joined pieces gives the pieces back, when no piece runs into a separator. */
  lemma {:induction false} SplitJoin(pieces: seq<string>, sep: string)
    requires |sep| > 0 && |pieces| >= 1
    requires forall i :: 0 <= i < |pieces| ==> EndsBeforeSeparator(pieces[i], sep)
    ensures Split(Join(pieces, sep), sep) == pieces
  {
    var x := pieces[0];
    assert EndsBeforeSeparator(x, sep);
    if |pieces| == 1 {
      forall j: nat ensures !OccursAt(x, sep, j) {
        if j + |sep| <= |x| {
          assert !OccursAt(x + sep, sep, j);
          assert (x + sep)[j..j + |sep|] == x[j..j + |sep|];
        }
      }
    } else {
      var rest := Join(pieces[1..], sep);
      assert Join(pieces, sep) == (x + sep) + rest;
      FindFirstExtends(x + sep, rest, sep);
      SplitJoin(pieces[1..], sep);
      assert ((x + sep) + rest)[..|x|] == x;
      assert ((x + sep) + rest)[|x| + |sep|..] == rest;
      assert pieces == [x] + pieces[1..];
    }
  }

  /**
    * A piece without a separator inside ends before the next one, provided the
    * separator's first character occurs nowhere else in it (true of ", ").
    */
  lemma AbsentSeparatorEndsBefore(x: string, sep: string)
    requires |sep| > 0 && FindFirst(x, sep).None?
    requires forall k :: 1 <= k < |sep| ==> sep[k] != sep[0]
    ensures EndsBeforeSeparator(x, sep)
  {
    var s := x + sep;
    assert s[|x|..|x| + |sep|] == sep;
    forall j: nat | j < |x| ensures !OccursAt(s, sep, j) {
      if j + |sep| <= |x| {
        assert !OccursAt(x, sep, j);
        assert s[j..j + |sep|] == x[j..j + |sep|];
      } else {
        var m := |x| - j;
        assert s[j..j + |sep|][m] == s[|x|] == sep[0] != sep[m];
      }
    }
    FindFirstIs(s, sep, |x|);
  }

  /** `str::split_once`: the text before and after the leftmost occurrence of `sep`. */
  function SplitOnce(s: string, sep: string): (r: Option<(string, string)>)
    requires |sep| > 0
    ensures r.None? <==> forall j: nat :: !OccursAt(s, sep, j)
    ensures r.Some? ==> s == r.value.0 + sep + r.value.1
    ensures r.Some? ==> forall j: nat :: j < |r.value.0| ==> !OccursAt(s, sep, j)
  {
    match FindFirst(s, sep)
    case None => None
    case Some(i) =>
      assert s[i..i + |sep|] == sep;
      assert s == s[..i] + sep + s[i + |sep|..];
      Some((s[..i], s[i + |sep|..]))
  }

  predicate IsDigit(c: char) {
    '0' <= c <= '9'
  }

  predicate AllDigits(s: string) {
    forall i :: 0 <= i < |s| ==> IsDigit(s[i])
  }

  function DigitValue(c: char): nat
    requires IsDigit(c)
  {
    c as int - '0' as int
  }

  function Digit(d: nat): (c: char)
    requires d < 10
    ensures IsDigit(c) && DigitValue(c) == d
  {
    ('0' as int + d) as char
  }

  /** The number a string of decimal digits denotes. */
  function DigitsValue(s: string): nat
    requires AllDigits(s)
  {
    if s == [] then 0 else DigitsValue(s[..|s| - 1]) * 10 + DigitValue(s[|s| - 1])
  }

  /**
    * Decimal rendering of a natural number, as `Display` for `u32`: digits that read
    * back as `n`, with no leading zero (`NatToStringUnique` shows this fixes the text).
    */
  function NatToString(n: nat): (s: string)
    ensures |s| >= 1 && AllDigits(s)
    ensures DigitsValue(s) == n
    ensures |s| > 1 ==> s[0] != '0'
    ensures n == 0 <==> s == "0"
  {
    if n < 10 then [Digit(n)]
    else
      var s := NatToString(n / 10) + [Digit(n % 10)];
      assert s[..|s| - 1] == NatToString(n / 10);
      s
  }

  /** A numeral without a leading zero denotes a positive number. */
  lemma {:induction false} LeadingNonZeroPositive(s: string)
    requires |s| >= 1 && AllDigits(s) && s[0] != '0'
    ensures DigitsValue(s) > 0
  {
    var m := |s| - 1;
    if m > 0 {
      assert s[..m][0] == s[0];
      LeadingNonZeroPositive(s[..m]);
    }
  }

  /** The numeral of `n` without a leading zero is unique: it is the one `NatToString` renders. */
  lemma {:induction false} NatToStringUnique(s: string, n: nat)
    requires |s| >= 1 && AllDigits(s) && (|s| > 1 ==> s[0] != '0') && DigitsValue(s) == n
    ensures s == NatToString(n)
  {
    var m := |s| - 1;
    if m == 0 {
      assert s == [s[0]];
      assert Digit(DigitValue(s[0])) == s[0];
    } else {
      var init := s[..m];
      assert init[0] == s[0];
      LeadingNonZeroPositive(init);
      assert n / 10 == DigitsValue(init) && n % 10 == DigitValue(s[m]);
      NatToStringUnique(init, n / 10);
      assert Digit(DigitValue(s[m])) == s[m];
      assert s == init + [s[m]];
    }
  }

  /** Length of the longest run of digits at the start of `s`. */
  function LeadingDigits(s: string): (k: nat)
    ensures k <= |s| && AllDigits(s[..k])
    ensures k < |s| ==> !IsDigit(s[k])
  {
    if s == [] || !IsDigit(s[0]) then 0
    else
      var k := 1 + LeadingDigits(s[1..]);
      assert s[..k] == [s[0]] + s[1..][..k - 1];
      k
  }

  lemma {:induction false} LeadingDigitsOf(d: string, rest: string)
    requires AllDigits(d) && rest != [] && !IsDigit(rest[0])
    ensures LeadingDigits(d + rest) == |d|
  {
    if d != [] {
      assert (d + rest)[1..] == d[1..] + rest;
      LeadingDigitsOf(d[1..], rest);
    } else {
      assert d + rest == rest;
    }
  }
}
