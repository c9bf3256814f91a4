/** The JavaScript string built-ins that the page's schedule parsing relies on:
    `String.prototype.split` with a string separator, `String.prototype.replace`
    with a string pattern and an empty replacement, `parseInt` with no radix,
    and `String.prototype.toLowerCase`. Strings are sequences of Unicode scalar
    values; every pattern the page uses lies in the Basic Multilingual Plane. */
module JsStrings {
  import opened Wrappers

  // ---------------------------------------------------------------------------
  // Searching

  /** `pat` occurs in `s` starting at position `i`. */
  predicate OccursAt(s: string, pat: string, i: int)
  {
    0 <= i && i + |pat| <= |s| && s[i..i + |pat|] == pat
  }

  /** `pat` occurs nowhere in `s`. */
  ghost predicate NoOccurrence(s: string, pat: string)
  {
    forall i :: !OccursAt(s, pat, i)
  }

  /** An occurrence starts with the pattern's first character. */
  lemma OccurrenceHead(s: string, pat: string, i: int)
    requires pat != [] && 0 <= i < |s|
    ensures OccursAt(s, pat, i) ==> s[i] == pat[0]
  {
    if OccursAt(s, pat, i) { assert s[i..i + |pat|][0] == s[i]; }
  }

  /** No occurrence before position `i` means no occurrence inside `s[..i]`. */
  lemma PrefixNoOccurrence(s: string, pat: string, i: nat)
    requires pat != [] && i <= |s|
    requires forall j :: 0 <= j < i ==> !OccursAt(s, pat, j)
    ensures NoOccurrence(s[..i], pat)
  {
    forall j ensures !OccursAt(s[..i], pat, j) {
      if 0 <= j && j + |pat| <= i {
        assert s[..i][j..j + |pat|] == s[j..j + |pat|];
        assert !OccursAt(s, pat, j);
      }
    }
  }

  /** `s.indexOf(pat, from)`: the first position at or after `from` where `pat`
      occurs, `None` standing for -1. */
  function IndexOf(s: string, pat: string, from: nat): (r: Option<nat>)
    decreases |s| - from
    ensures r.Some? ==> from <= r.value && r.value + |pat| <= |s|
  {
    if from + |pat| > |s| then None
    else if s[from..from + |pat|] == pat then Some(from)
    else IndexOf(s, pat, from + 1)
  }

  /** `IndexOf` finds an occurrence. */
  lemma {:induction false} IndexOfFinds(s: string, pat: string, from: nat)
    decreases |s| - from
    ensures IndexOf(s, pat, from).Some? ==> OccursAt(s, pat, IndexOf(s, pat, from).value)
  {
    if from + |pat| <= |s| && s[from..from + |pat|] != pat {
      IndexOfFinds(s, pat, from + 1);
    }
  }

  /** `IndexOf` skips no occurrence on its way. */
  lemma {:induction false} IndexOfFirst(s: string, pat: string, from: nat)
    decreases |s| - from
    ensures forall i :: from <= i && (IndexOf(s, pat, from).None? || i < IndexOf(s, pat, from).value) ==>
                        !OccursAt(s, pat, i)
  {
    if from + |pat| <= |s| && s[from..from + |pat|] != pat {
      IndexOfFirst(s, pat, from + 1);
    }
  }

  /** The first occurrence at or after `from` is the one `IndexOf` returns. */
  lemma {:induction false} IndexOfReaches(s: string, pat: string, from: nat, k: nat)
    requires from <= k && OccursAt(s, pat, k)
    requires forall j :: from <= j < k ==> !OccursAt(s, pat, j)
    ensures IndexOf(s, pat, from) == Some(k)
    decreases k - from
  {
    if from < k {
      assert !OccursAt(s, pat, from);
      IndexOfReaches(s, pat, from + 1, k);
    }
  }

  // ---------------------------------------------------------------------------
  // split

  /** `s.split(sep)` for a non-empty separator: the pieces between successive,
      non-overlapping occurrences of `sep`, scanning from the left. */
  function Split(s: string, sep: string): (pieces: seq<string>)
    requires sep != []
    decreases |s|
    ensures 1 <= |pieces|
  {
    match IndexOf(s, sep, 0)
    case None => [s]
    case Some(i) => [s[..i]] + Split(s[i + |sep|..], sep)
  }

  /** No piece contains the separator. */
  lemma {:induction false} SplitPiecesSpec(s: string, sep: string)
    requires sep != []
    decreases |s|
    ensures forall k :: 0 <= k < |Split(s, sep)| ==> NoOccurrence(Split(s, sep)[k], sep)
  {
    IndexOfFirst(s, sep, 0);
    match IndexOf(s, sep, 0)
    case None =>
    case Some(i) =>
      PrefixNoOccurrence(s, sep, i);
      SplitPiecesSpec(s[i + |sep|..], sep);
  }

  /** `pieces.join(sep)`, the inverse of `Split`. */
  function Join(pieces: seq<string>, sep: string): string
  {
    if |pieces| == 0 then ""
    else if |pieces| == 1 then pieces[0]
    else pieces[0] + sep + Join(pieces[1..], sep)
  }

  /** Splitting and joining again gives back the original string. */
  lemma {:induction false} SplitJoin(s: string, sep: string)
    requires sep != []
    ensures Join(Split(s, sep), sep) == s
    decreases |s|
  {
    IndexOfFinds(s, sep, 0);
    match IndexOf(s, sep, 0)
    case None =>
    case Some(i) =>
      var rest := s[i + |sep|..];
      SplitJoin(rest, sep);
      SplitAt(s, sep, i);
      JoinCons(s[..i], Split(rest, sep), sep);
      Reassemble(s, sep, i);
  }

  /** One step of `Split`: the piece before the first occurrence, then the
      pieces of what follows the separator. */
  lemma SplitAt(s: string, sep: string, i: nat)
    requires sep != [] && IndexOf(s, sep, 0) == Some(i)
    ensures Split(s, sep) == [s[..i]] + Split(s[i + |sep|..], sep)
  {
  }

  lemma JoinCons(a: string, rest: seq<string>, sep: string)
    requires rest != []
    ensures Join([a] + rest, sep) == a + sep + Join(rest, sep)
  {
    var pieces := [a] + rest;
    assert pieces[0] == a && pieces[1..] == rest;
  }

  lemma Reassemble(s: string, sep: string, i: nat)
    requires OccursAt(s, sep, i)
    ensures s == s[..i] + sep + s[i + |sep|..]
  {
    assert s[..i] + s[i..i + |sep|] + s[i + |sep|..] == s;
  }

  /** The first piece is everything before the first occurrence of the
      separator, or the whole string when there is none. */
  lemma FirstPiece(s: string, sep: string)
    requires sep != []
    ensures NoOccurrence(s, sep) ==> Split(s, sep) == [s]
    ensures !NoOccurrence(s, sep) ==>
              (2 <= |Split(s, sep)| &&
               exists i :: OccursAt(s, sep, i) && Split(s, sep)[0] == s[..i] &&
                           forall j :: 0 <= j < i ==> !OccursAt(s, sep, j))
  {
    IndexOfFinds(s, sep, 0);
    IndexOfFirst(s, sep, 0);
  }

  /** A string made of `a`, one separator and `b`, where neither part contains
      the separator's first character, splits into exactly `[a, b]`. */
  lemma SplitOnce(a: string, sep: string, b: string)
    requires sep != [] && sep[0] !in a && sep[0] !in b
    ensures Split(a + sep + b, sep) == [a, b]
  {
    var s := a + sep + b;
    forall j | 0 <= j < |a| ensures !OccursAt(s, sep, j) {
      assert s[j] == a[j];
      OccurrenceHead(s, sep, j);
    }
    assert OccursAt(s, sep, |a|) by { assert s[|a|..|a| + |sep|] == sep; }
    IndexOfReaches(s, sep, 0, |a|);
    assert s[..|a|] == a && s[|a| + |sep|..] == b;
    NoLeadCharNoOccurrence(b, sep);
  }

  /** A string without the separator's first character has no occurrence of it
      and is its own single piece. */
  lemma NoLeadCharNoOccurrence(s: string, sep: string)
    requires sep != [] && sep[0] !in s
    ensures NoOccurrence(s, sep) && Split(s, sep) == [s]
  {
    forall i | 0 <= i < |s| ensures !OccursAt(s, sep, i) {
      OccurrenceHead(s, sep, i);
    }
    FirstPiece(s, sep);
  }

  // ---------------------------------------------------------------------------
  // replace

  /** `s.replace(pat, "")`: a string pattern replaces its FIRST occurrence only;
      a string without `pat` comes back unchanged. */
  function RemoveFirst(s: string, pat: string): string
  {
    match IndexOf(s, pat, 0)
    case None => s
    case Some(i) => s[..i] + s[i + |pat|..]
  }

  /** Without an occurrence nothing changes; with one, exactly the first
      occurrence of the pattern is cut out. */
  lemma RemoveFirstSpec(s: string, pat: string)
    ensures NoOccurrence(s, pat) ==> RemoveFirst(s, pat) == s
    ensures !NoOccurrence(s, pat) ==>
      exists i :: OccursAt(s, pat, i) && (forall j :: 0 <= j < i ==> !OccursAt(s, pat, j)) &&
                  RemoveFirst(s, pat) == s[..i] + s[i + |pat|..]
  {
    IndexOfFinds(s, pat, 0);
    IndexOfFirst(s, pat, 0);
    if IndexOf(s, pat, 0).Some? {
      var i := IndexOf(s, pat, 0).value;
      assert OccursAt(s, pat, i) && RemoveFirst(s, pat) == s[..i] + s[i + |pat|..];
    }
  }

  /** Removing the first occurrence of a one-character pattern `[c]` from
      `a + [c] + b`, where `a` does not contain `c`, gives `a + b`: later
      occurrences in `b` stay. */
  lemma RemoveFirstChar(a: string, c: char, b: string)
    requires c !in a
    ensures RemoveFirst(a + [c] + b, [c]) == a + b
  {
    var s := a + [c] + b;
    forall j | 0 <= j < |a| ensures !OccursAt(s, [c], j) {
      assert s[j] == a[j];
      OccurrenceHead(s, [c], j);
    }
    assert OccursAt(s, [c], |a|) by { assert s[|a|..|a| + 1] == [c]; }
    IndexOfReaches(s, [c], 0, |a|);
    assert s[..|a|] == a && s[|a| + 1..] == b;
  }

  /** A string without `c` is left alone by `replace(c, "")`. */
  lemma RemoveAbsentChar(s: string, c: char)
    requires c !in s
    ensures RemoveFirst(s, [c]) == s
  {
    forall i | 0 <= i < |s| ensures !OccursAt(s, [c], i) {
      OccurrenceHead(s, [c], i);
    }
    RemoveFirstSpec(s, [c]);
  }

  // ---------------------------------------------------------------------------
  // toLowerCase

  /** Lower-cases the ASCII letters A-Z and leaves every other character alone. */
  function ToLowerAscii(s: string): (r: string)
    ensures |r| == |s|
    ensures forall k :: 0 <= k < |s| ==>
      r[k] == if 'A' <= s[k] <= 'Z' then s[k] - 'A' + 'a' else s[k]
  {
    seq(|s|, k requires 0 <= k < |s| => if 'A' <= s[k] <= 'Z' then s[k] - 'A' + 'a' else s[k])
  }

  /** No capital letter survives lower-casing, so lower-casing twice is
      lower-casing once, and a character only ever changes into the small
      form of the same letter. */
  lemma ToLowerAsciiSpec(s: string)
    ensures forall k :: 0 <= k < |s| ==> !('A' <= ToLowerAscii(s)[k] <= 'Z')
    ensures ToLowerAscii(ToLowerAscii(s)) == ToLowerAscii(s)
    ensures forall k :: 0 <= k < |s| ==>
      ToLowerAscii(s)[k] == s[k] || ('a' <= ToLowerAscii(s)[k] <= 'z' && s[k] == ToLowerAscii(s)[k] - 'a' + 'A')
  {
    var r := ToLowerAscii(s);
    assert ToLowerAscii(r) == r by {
      forall k | 0 <= k < |r| ensures ToLowerAscii(r)[k] == r[k] {}
    }
  }

  /** Two strings lower-case alike exactly when they have the same length and
      agree letter by letter up to the case of A-Z. */
  lemma ToLowerAsciiEqual(s: string, w: string)
    requires forall k :: 0 <= k < |w| ==> !('A' <= w[k] <= 'Z')
    ensures ToLowerAscii(s) == w <==>
      |s| == |w| && forall k :: 0 <= k < |s| ==>
        s[k] == w[k] || ('a' <= w[k] <= 'z' && s[k] == w[k] - 'a' + 'A')
  {
    if |s| == |w| && forall k :: 0 <= k < |s| ==> s[k] == w[k] || ('a' <= w[k] <= 'z' && s[k] == w[k] - 'a' + 'A') {
      forall k | 0 <= k < |s| ensures ToLowerAscii(s)[k] == w[k] {}
    }
  }

  // ---------------------------------------------------------------------------
  // parseInt

  /** The characters `parseInt` skips before a number: ECMAScript's WhiteSpace
      (tab, vertical tab, form feed, space, no-break space, byte-order mark and
      the other space separators) and LineTerminator. */
  predicate IsJsWhitespace(c: char)
  {
    c == '\t' || c == '\n' || c == '\U{000B}' || c == '\U{000C}' || c == '\r' ||
    c == ' ' || c == '\U{00A0}' || c == '\U{1680}' ||
    ('\U{2000}' <= c <= '\U{200A}') ||
    c == '\U{2028}' || c == '\U{2029}' || c == '\U{202F}' || c == '\U{205F}' ||
    c == '\U{3000}' || c == '\U{FEFF}'
  }

  /** Drops the leading white space. */
  function TrimStart(s: string): string
  {
    if s != [] && IsJsWhitespace(s[0]) then TrimStart(s[1..]) else s
  }

  /** What `TrimStart` removes is white space, and what it keeps is a suffix
      that does not start with white space. */
  lemma {:induction false} TrimStartSpec(s: string)
    ensures |TrimStart(s)| <= |s| && TrimStart(s) == s[|s| - |TrimStart(s)|..]
    ensures TrimStart(s) == [] || !IsJsWhitespace(TrimStart(s)[0])
    ensures forall k :: 0 <= k < |s| - |TrimStart(s)| ==> IsJsWhitespace(s[k])
  {
    if s != [] && IsJsWhitespace(s[0]) {
      TrimStartSpec(s[1..]);
      var r := TrimStart(s);
      forall k | 0 <= k < |s| - |r| ensures IsJsWhitespace(s[k]) {
        if 0 < k { assert s[k] == s[1..][k - 1]; }
      }
    }
  }

  predicate IsDecimalDigit(c: char)
  {
    '0' <= c <= '9'
  }

  /** `c` is a digit of the given radix; `parseInt` without a radix only ever
      uses 10 or 16. */
  predicate IsDigit(c: char, radix: nat)
  {
    IsDecimalDigit(c) || (radix == 16 && ('a' <= c <= 'f' || 'A' <= c <= 'F'))
  }

  function DigitValue(c: char): (v: nat)
    requires IsDigit(c, 16)
    ensures v < 16
    ensures IsDecimalDigit(c) <==> v < 10
  {
    if IsDecimalDigit(c) then (c - '0') as nat
    else if 'a' <= c <= 'f' then (c - 'a') as nat + 10
    else (c - 'A') as nat + 10
  }

  /** The length of the longest prefix of `s` made of digits of `radix`. */
  function LeadingDigitCount(s: string, radix: nat): (n: nat)
    ensures n <= |s|
    ensures forall k :: 0 <= k < n ==> IsDigit(s[k], radix)
    ensures n < |s| ==> !IsDigit(s[n], radix)
  {
    if s != [] && IsDigit(s[0], radix) then 1 + LeadingDigitCount(s[1..], radix) else 0
  }

  /** The value of a string of digits, most significant first. */
  function DigitsValue(d: string, radix: nat): nat
    requires radix == 10 || radix == 16
    requires forall k :: 0 <= k < |d| ==> IsDigit(d[k], radix)
  {
    if d == [] then 0
    else
      assert IsDigit(d[|d| - 1], radix);
      DigitsValue(d[..|d| - 1], radix) * radix + DigitValue(d[|d| - 1])
  }

  /** The value of a two- and a four-digit decimal numeral, digit by digit. */
  lemma DigitsValueTwo(s: string)
    requires |s| == 2 && IsDecimalDigit(s[0]) && IsDecimalDigit(s[1])
    ensures DigitsValue(s, 10) == 10 * DigitValue(s[0]) + DigitValue(s[1])
  {
    var p := s[..1];
    assert p[..0] == [] && p[0] == s[0];
    assert DigitsValue(p, 10) == DigitValue(s[0]);
    assert s[..|s| - 1] == p;
  }

  lemma DigitsValueFour(s: string)
    requires |s| == 4 && forall k :: 0 <= k < 4 ==> IsDecimalDigit(s[k])
    ensures DigitsValue(s, 10) ==
      1000 * DigitValue(s[0]) + 100 * DigitValue(s[1]) + 10 * DigitValue(s[2]) + DigitValue(s[3])
  {
    DigitsValueTwo(s[..2]);
    assert s[..3][..2] == s[..2];
  }

  /** `parseInt(s)` with no radix: skip leading white space, take an optional
      sign, switch to radix 16 after a `0x`/`0X` prefix, then read the longest
      run of digits. No digit at all gives `NaN`, here `None`. */
  function ParseInt(s: string): Option<int>
  {
    var t := TrimStart(s);
    var negative := t != [] && t[0] == '-';
    var u := if t != [] && (t[0] == '-' || t[0] == '+') then t[1..] else t;
    if 2 <= |u| && u[0] == '0' && (u[1] == 'x' || u[1] == 'X') then ParseDigits(u[2..], 16, negative)
    else ParseDigits(u, 10, negative)
  }

  /** The signed value of the leading run of `radix` digits of `w`, or `None`
      when `w` does not start with one. */
  function ParseDigits(w: string, radix: nat, negative: bool): Option<int>
    requires radix == 10 || radix == 16
  {
    var n := LeadingDigitCount(w, radix);
    if n == 0 then None
    else
      var v: int := DigitsValue(w[..n], radix);
      Some(if negative then -v else v)
  }

  /** Where `parseInt` starts reading digits: a string that starts with a
      decimal digit and no `0x` prefix is read in radix 10, unsigned. */
  lemma ParseIntUnsigned(s: string)
    requires s != [] && IsDecimalDigit(s[0])
    requires !(2 <= |s| && s[0] == '0' && (s[1] == 'x' || s[1] == 'X'))
    ensures ParseInt(s) == ParseDigits(s, 10, false)
  {
    assert TrimStart(s) == s;
  }

  /** A minus sign followed by a decimal digit, and no `0x` prefix, is read in
      radix 10, negated. */
  lemma ParseIntMinus(u: string)
    requires u != [] && IsDecimalDigit(u[0])
    requires !(2 <= |u| && u[0] == '0' && (u[1] == 'x' || u[1] == 'X'))
    ensures ParseInt("-" + u) == ParseDigits(u, 10, true)
  {
    var s := "-" + u;
    assert s[0] == '-' && s[1..] == u;
    assert TrimStart(s) == s;
  }

  /** A run of decimal digits `d` at the head of `w`, not continued by another
      digit, is what `ParseDigits` reads. */
  lemma ParseDigitsRun(w: string, d: string, negative: bool)
    requires d != [] && |d| <= |w| && w[..|d|] == d
    requires forall k :: 0 <= k < |d| ==> IsDecimalDigit(d[k])
    requires |d| < |w| ==> !IsDecimalDigit(w[|d|])
    ensures ParseDigits(w, 10, negative) ==
      Some(if negative then -(DigitsValue(d, 10) as int) else DigitsValue(d, 10))
  {
    forall k | 0 <= k < |d| ensures IsDigit(w[k], 10) { assert w[k] == w[..|d|][k]; }
    LeadingCountAtLeast(w, 10, |d|);
    assert LeadingDigitCount(w, 10) == |d|;
  }

  /** A run of decimal digits followed by anything that does not continue it
      parses to the run's value: `parseInt` reads only the leading digits. */
  lemma ParseIntLeadingDigits(d: string, rest: string)
    requires d != [] && forall k :: 0 <= k < |d| ==> IsDecimalDigit(d[k])
    requires rest == [] || !IsDecimalDigit(rest[0])
    requires 2 <= |d| || rest == [] || (rest[0] != 'x' && rest[0] != 'X')
    ensures ParseInt(d + rest) == Some(DigitsValue(d, 10))
  {
    var s := d + rest;
    assert s[0] == d[0];
    assert 2 <= |s| ==> s[1] != 'x' && s[1] != 'X' by {
      if 2 <= |s| { assert s[1] == if 2 <= |d| then d[1] else rest[0]; }
    }
    ParseIntUnsigned(s);
    assert |d| < |s| ==> s[|d|] == rest[0];
    assert s[..|d|] == d;
    ParseDigitsRun(s, d, false);
  }

  /** A minus sign before a run of decimal digits negates its value. */
  lemma ParseIntNegated(d: string)
    requires d != [] && forall k :: 0 <= k < |d| ==> IsDecimalDigit(d[k])
    ensures ParseInt("-" + d) == Some(-(DigitsValue(d, 10) as int))
  {
    ParseIntMinus(d);
    assert d[..|d|] == d;
    ParseDigitsRun(d, d, true);
  }

  /** A string of decimal digits parses to its value. */
  lemma ParseIntDigits(d: string)
    requires d != [] && forall k :: 0 <= k < |d| ==> IsDecimalDigit(d[k])
    ensures ParseInt(d) == Some(DigitsValue(d, 10))
  {
    ParseIntLeadingDigits(d, "");
    assert d + "" == d;
  }

  /** A four-digit decimal numeral parses to its value, digit by digit. */
  lemma ParseIntFourDigits(d: string, v: nat)
    requires |d| == 4 && forall k :: 0 <= k < 4 ==> IsDecimalDigit(d[k])
    requires v == 1000 * DigitValue(d[0]) + 100 * DigitValue(d[1]) + 10 * DigitValue(d[2]) + DigitValue(d[3])
    ensures ParseInt(d) == Some(v)
  {
    ParseIntDigits(d);
    DigitsValueFour(d);
  }

  lemma {:induction false} LeadingCountAtLeast(s: string, radix: nat, m: nat)
    requires m <= |s| && forall k :: 0 <= k < m ==> IsDigit(s[k], radix)
    ensures m <= LeadingDigitCount(s, radix)
  {
    if 0 < m {
      LeadingCountAtLeast(s[1..], radix, m - 1);
    }
  }

  /** A string that starts with neither white space, a sign nor a decimal
      digit is not a number. */
  lemma ParseIntNoDigits(s: string)
    requires s == [] || (!IsJsWhitespace(s[0]) && s[0] != '-' && s[0] != '+' && !IsDecimalDigit(s[0]))
    ensures ParseInt(s) == None
  {
  }

  /** The shortest decimal numeral of `n`, as `String(n)` prints it. */
  function DecimalString(n: nat): (r: string)
    ensures r != [] && forall k :: 0 <= k < |r| ==> IsDecimalDigit(r[k])
  {
    var last := ['0' + (n % 10) as char];
    if n < 10 then last else DecimalString(n / 10) + last
  }

  lemma {:induction false} DecimalStringValue(n: nat)
    ensures DigitsValue(DecimalString(n), 10) == n
  {
    var d := DecimalString(n);
    if n >= 10 {
      DecimalStringValue(n / 10);
      assert d[..|d| - 1] == DecimalString(n / 10);
    }
  }

  /** `parseInt(String(n)) == n` for every natural number `n`. */
  lemma ParseIntDecimalString(n: nat)
    ensures ParseInt(DecimalString(n)) == Some(n)
  {
    DecimalStringValue(n);
    ParseIntDigits(DecimalString(n));
  }

  /** `parseInt("-" + String(n)) == -n` for every natural number `n`. */
  lemma ParseIntNegatedDecimalString(n: nat)
    ensures ParseInt("-" + DecimalString(n)) == Some(-(n as int))
  {
    DecimalStringValue(n);
    ParseIntNegated(DecimalString(n));
  }
}
