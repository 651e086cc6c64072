/** The Python string operations the scripts rely on, over `string` (a
    sequence of characters): `str.isdigit`, `str.isspace`, `str.strip`,
    `str.lower`, `str.split`, `str.join`, `str.replace`, the `in` substring
    test, `int(str)` and `str(int)`.

    Character classes are restricted as follows: digits are the ASCII digits
    only; whitespace and lower-casing cover the Latin-1 range (which holds the
    Danish letters Æ, Ø and Å).
 */
module Text {
  import opened Results

  // ---------------------------------------------------------------------------
  // Character classes

  /** `c.isdigit()` for ASCII digits. */
  predicate IsDigit(c: char) {
    '0' <= c <= '9'
  }

  /** `c.isspace()` on the Latin-1 range. */
  predicate IsSpace(c: char) {
    || c == ' ' || c == '\t' || c == '\n' || c == '\r'
    || c == '\U{0B}' || c == '\U{0C}'
    || ('\U{1C}' <= c <= '\U{1F}')
    || c == '\U{85}' || c == '\U{A0}'
  }

  /** `s.isdigit()`: non-empty and made of digits only. */
  predicate IsDigits(s: string) {
    |s| > 0 && AllDigits(s)
  }

  predicate AllDigits(s: string) {
    forall i :: 0 <= i < |s| ==> IsDigit(s[i])
  }

  /** `any(ch.isdigit() for ch in s)`. */
  predicate HasDigit(s: string) {
    exists i :: 0 <= i < |s| && IsDigit(s[i])
  }

  // ---------------------------------------------------------------------------
  // Decimal numbers

  function DigitValue(c: char): (d: nat)
    requires IsDigit(c)
    ensures d < 10
  {
    (c as int) - ('0' as int)
  }

  function DigitChar(d: nat): (c: char)
    requires d < 10
    ensures IsDigit(c) && DigitValue(c) == d
  {
    (d + '0' as int) as char
  }

  function Pow10(k: nat): (p: nat)
    ensures p >= 1
  {
    if k == 0 then 1 else 10 * Pow10(k - 1)
  }

  /** A numeral of `k` digits denotes less than 10^k. */
  lemma {:induction false} DigitsValueBound(s: string)
    requires AllDigits(s)
    ensures DigitsValue(s) < Pow10(|s|)
  {
    if |s| > 0 {
      DigitsValueBound(s[..|s| - 1]);
    }
  }

  /** The number a string of decimal digits denotes, most significant first. */
  function DigitsValue(s: string): nat
    requires AllDigits(s)
  {
    if |s| == 0 then 0 else DigitsValue(s[..|s| - 1]) * 10 + DigitValue(s[|s| - 1])
  }

  /** `str(n)` for a natural number: its decimal numeral without leading zeros. */
  function Decimal(n: nat): string
  {
    if n < 10 then [DigitChar(n)] else Decimal(n / 10) + [DigitChar(n % 10)]
  }

  /** `str(i)` for any integer. */
  function IntToString(i: int): string
  {
    if i < 0 then "-" + Decimal(-i) else Decimal(i)
  }

  /** `str(n)` is a digit string that denotes `n`. */
  lemma {:induction false} DecimalRoundTrip(n: nat)
    ensures IsDigits(Decimal(n))
    ensures DigitsValue(Decimal(n)) == n
  {
    if n >= 10 {
      DecimalRoundTrip(n / 10);
      var s := Decimal(n);
      assert s[..|s| - 1] == Decimal(n / 10);
    }
  }

  /** A digit string holds no character that is not a digit. */
  lemma DigitsAvoid(s: string, c: char)
    requires AllDigits(s)
    requires !IsDigit(c)
    ensures c !in s
  {
  }

  /** `"".join(filter(str.isdigit, s))`: the digits of `s`, in order. */
  function KeepDigits(s: string): (r: string)
    ensures AllDigits(r)
    ensures |r| <= |s|
  {
    if |s| == 0 then ""
    else if IsDigit(s[0]) then [s[0]] + KeepDigits(s[1..])
    else KeepDigits(s[1..])
  }

  /** No digit is kept exactly when the string has no digit. */
  lemma {:induction false} KeepDigitsEmpty(s: string)
    ensures |KeepDigits(s)| == 0 <==> !HasDigit(s)
  {
    if |s| > 0 {
      KeepDigitsEmpty(s[1..]);
      if HasDigit(s[1..]) {
        var i :| 0 <= i < |s[1..]| && IsDigit(s[1..][i]);
        assert IsDigit(s[i + 1]);
      }
      if HasDigit(s) && !IsDigit(s[0]) {
        var i :| 0 <= i < |s| && IsDigit(s[i]);
        assert IsDigit(s[1..][i - 1]);
      }
    }
  }

  /** Filtering the digits of a digit string keeps it whole. */
  lemma {:induction false} KeepDigitsOfDigits(s: string)
    requires AllDigits(s)
    ensures KeepDigits(s) == s
  {
    if |s| > 0 {
      KeepDigitsOfDigits(s[1..]);
    }
  }

  /** The number formed by the digits of `s`, `int("".join(filter(str.isdigit,
      s)))`, which is a ValueError when there are none. */
  function DigitsOf(s: string): (r: Result<nat>)
    ensures r.Ok? <==> HasDigit(s)
    ensures r.Ok? ==> r.value == DigitsValue(KeepDigits(s))
  {
    KeepDigitsEmpty(s);
    var d := KeepDigits(s);
    if |d| == 0 then Err(ValueError) else Ok(DigitsValue(d))
  }

  /** Filtering distributes over concatenation. */
  lemma {:induction false} KeepDigitsAppend(a: string, b: string)
    ensures KeepDigits(a + b) == KeepDigits(a) + KeepDigits(b)
  {
    if |a| > 0 {
      assert (a + b)[1..] == a[1..] + b;
      KeepDigitsAppend(a[1..], b);
    } else {
      assert a + b == b;
    }
  }

  /** `int(s)`: surrounding whitespace is ignored, one optional sign, then
      at least one digit. */
  function PyInt(s: string): (r: Result<int>)
    ensures r.Err? ==> r.error == ValueError
  {
    ParseSigned(Strip(s))
  }

  /** An optional sign followed by at least one digit, and nothing else. */
  function ParseSigned(t: string): (r: Result<int>)
    ensures r.Err? ==> r.error == ValueError
  {
    if |t| > 0 && (t[0] == '+' || t[0] == '-') && IsDigits(t[1..]) then
      var magnitude: int := DigitsValue(t[1..]);
      Ok(if t[0] == '-' then -magnitude else magnitude)
    else if IsDigits(t) then
      Ok(DigitsValue(t))
    else
      Err(ValueError)
  }

  /** `int(str(i)) == i`. */
  lemma PyIntRoundTrip(i: int)
    ensures PyInt(IntToString(i)) == Ok(i)
  {
    if i < 0 {
      var n: nat := -i;
      assert IntToString(i) == "-" + Decimal(n);
      PyIntNegative(n);
    } else {
      assert IntToString(i) == Decimal(i);
      PyIntNatural(i);
    }
  }

  lemma PyIntNatural(n: nat)
    ensures PyInt(Decimal(n)) == Ok(n)
  {
    DecimalRoundTrip(n);
    PyIntOfDigits(Decimal(n));
  }

  lemma PyIntNegative(n: nat)
    requires n > 0
    ensures PyInt("-" + Decimal(n)) == Ok(-(n as int))
  {
    DecimalRoundTrip(n);
    PyIntOfNegated(Decimal(n), n);
  }

  lemma PyIntOfNegated(d: string, n: nat)
    requires IsDigits(d) && DigitsValue(d) == n
    ensures PyInt("-" + d) == Ok(-(n as int))
  {
    PyIntOfSignedDigits(d);
  }

  /** `int` of a digit string is the number it denotes. */
  lemma PyIntOfDigits(t: string)
    requires IsDigits(t)
    ensures PyInt(t) == Ok(DigitsValue(t))
  {
    NoSpaceInDigits(t);
    StripNoSpace(t);
    ParseUnsigned(t);
  }

  lemma ParseUnsigned(t: string)
    requires IsDigits(t)
    ensures ParseSigned(t) == Ok(DigitsValue(t))
  {
    assert !(t[0] == '+' || t[0] == '-') by { assert IsDigit(t[0]); }
  }

  /** `int` of a minus sign followed by a digit string is the negated number. */
  lemma PyIntOfSignedDigits(d: string)
    requires IsDigits(d)
    ensures PyInt("-" + d) == Ok(-(DigitsValue(d) as int))
  {
    var t := "-" + d;
    NoSpaceInSigned(d);
    StripNoSpace(t);
    ParseNegative(d);
  }

  lemma NoSpaceInSigned(d: string)
    requires AllDigits(d)
    ensures forall k :: 0 <= k < |"-" + d| ==> !IsSpace(("-" + d)[k])
  {
    var t := "-" + d;
    forall k | 0 <= k < |t| ensures !IsSpace(t[k]) {
      if k > 0 { assert t[k] == d[k - 1]; }
    }
  }

  lemma ParseNegative(d: string)
    requires IsDigits(d)
    ensures ParseSigned("-" + d) == Ok(-(DigitsValue(d) as int))
  {
    assert ("-" + d)[1..] == d;
  }

  lemma NoSpaceInDigits(s: string)
    requires AllDigits(s)
    ensures forall k :: 0 <= k < |s| ==> !IsSpace(s[k])
  {
  }

  // ---------------------------------------------------------------------------
  // Whitespace and case

  function StripStart(s: string): (r: string)
    ensures |r| <= |s|
    ensures r == s[|s| - |r|..]
    ensures |r| > 0 ==> !IsSpace(r[0])
  {
    if |s| > 0 && IsSpace(s[0]) then StripStart(s[1..]) else s
  }

  function StripEnd(s: string): (r: string)
    ensures |r| <= |s|
    ensures r == s[..|r|]
    ensures |r| > 0 ==> !IsSpace(r[|r| - 1])
  {
    if |s| > 0 && IsSpace(s[|s| - 1]) then StripEnd(s[..|s| - 1]) else s
  }

  /** `s.strip()`: `s` without its leading and trailing whitespace. */
  function Strip(s: string): (r: string)
    ensures |r| <= |s|
    ensures |r| > 0 ==> !IsSpace(r[0]) && !IsSpace(r[|r| - 1])
  {
    StripEnd(StripStart(s))
  }

  /** A string without whitespace is its own strip. */
  lemma StripNoSpace(s: string)
    requires forall k :: 0 <= k < |s| ==> !IsSpace(s[k])
    ensures Strip(s) == s
  {
  }

  /** A string that neither starts nor ends with whitespace is its own strip. */
  lemma StripTrimmed(s: string)
    requires |s| > 0 ==> !IsSpace(s[0]) && !IsSpace(s[|s| - 1])
    ensures Strip(s) == s
  {
  }

  /** Stripping whitespace never changes the digits a string holds. */
  lemma KeepDigitsStrip(s: string)
    ensures KeepDigits(Strip(s)) == KeepDigits(s)
  {
    var t := StripStart(s);
    KeepDigitsStripStart(s);
    KeepDigitsStripEnd(t);
  }

  lemma {:induction false} KeepDigitsStripStart(s: string)
    ensures KeepDigits(StripStart(s)) == KeepDigits(s)
  {
    if |s| > 0 && IsSpace(s[0]) {
      KeepDigitsStripStart(s[1..]);
    }
  }

  lemma {:induction false} KeepDigitsStripEnd(s: string)
    ensures KeepDigits(StripEnd(s)) == KeepDigits(s)
  {
    if |s| > 0 && IsSpace(s[|s| - 1]) {
      var init := s[..|s| - 1];
      KeepDigitsStripEnd(init);
      KeepDigitsAppend(init, [s[|s| - 1]]);
      assert init + [s[|s| - 1]] == s;
    }
  }

  /** `c.lower()` on the Latin-1 range: A-Z and À-Þ (except ×) move down by 32. */
  function LowerChar(c: char): char
  {
    if 'A' <= c <= 'Z' || ('\U{C0}' <= c <= '\U{DE}' && c != '\U{D7}') then
      ((c as int) + 32) as char
    else c
  }

  /** `s.lower()`. */
  function Lower(s: string): (r: string)
    ensures |r| == |s|
    ensures forall i :: 0 <= i < |s| ==> r[i] == LowerChar(s[i])
  {
    seq(|s|, i requires 0 <= i < |s| => LowerChar(s[i]))
  }

  // ---------------------------------------------------------------------------
  // Splitting and joining

  /** The pieces between separator characters; `s.split(c)` when `isSep` is
      `c ==`. There is always at least one piece, and pieces may be empty. */
  function SplitWhere(s: string, isSep: char -> bool): (r: seq<string>)
    ensures |r| >= 1
    ensures forall i, j :: 0 <= i < |r| && 0 <= j < |r[i]| ==> !isSep(r[i][j])
  {
    if |s| == 0 then [""]
    else
      var rest := SplitWhere(s[1..], isSep);
      if isSep(s[0]) then [""] + rest else [[s[0]] + rest[0]] + rest[1..]
  }

  /** `s.split(c)` for a one-character separator. */
  function Split(s: string, c: char): (r: seq<string>)
    ensures |r| >= 1
    ensures forall i :: 0 <= i < |r| ==> c !in r[i]
  {
    var r := SplitWhere(s, x => x == c);
    assert forall i :: 0 <= i < |r| ==> c !in r[i] by {
      forall i | 0 <= i < |r| ensures c !in r[i] {
        assert forall j :: 0 <= j < |r[i]| ==> r[i][j] != c;
      }
    }
    r
  }

  /** `sep.join(parts)`. */
  function Join(parts: seq<string>, sep: string): string
  {
    if |parts| == 0 then ""
    else if |parts| == 1 then parts[0]
    else parts[0] + sep + Join(parts[1..], sep)
  }

  /** A join of parts and a separator that all avoid `c` avoids `c`. */
  lemma {:induction false} JoinAvoids(parts: seq<string>, sep: string, c: char)
    requires forall i :: 0 <= i < |parts| ==> c !in parts[i]
    requires c !in sep
    ensures c !in Join(parts, sep)
  {
    if |parts| > 1 {
      JoinAvoids(parts[1..], sep, c);
    }
  }

  /** `s.split()`: the maximal runs of non-whitespace characters. */
  function Words(s: string): (r: seq<string>)
    ensures forall i :: 0 <= i < |r| ==> |r[i]| > 0
  {
    NonEmpty(SplitWhere(s, IsSpace))
  }

  /** The non-empty strings of `ps`, in order. */
  function NonEmpty(ps: seq<string>): (r: seq<string>)
    ensures forall i :: 0 <= i < |r| ==> |r[i]| > 0
  {
    if |ps| == 0 then []
    else if |ps[0]| == 0 then NonEmpty(ps[1..])
    else [ps[0]] + NonEmpty(ps[1..])
  }

  /** The first piece of `s.split(c)` is the longest prefix of `s` free of `c`. */
  lemma {:induction false} SplitFirst(s: string, c: char)
    ensures StartsWith(s, Split(s, c)[0])
    ensures |Split(s, c)[0]| < |s| ==> s[|Split(s, c)[0]|] == c
  {
    SplitWhereFirst(s, x => x == c);
  }

  lemma {:induction false} SplitWhereFirst(s: string, isSep: char -> bool)
    ensures StartsWith(s, SplitWhere(s, isSep)[0])
    ensures |SplitWhere(s, isSep)[0]| < |s| ==> isSep(s[|SplitWhere(s, isSep)[0]|])
  {
    if |s| > 0 {
      SplitWhereFirst(s[1..], isSep);
      if isSep(s[0]) {
        assert SplitWhere(s, isSep)[0] == "";
      } else {
        SplitWhereFirstStep(s, isSep, SplitWhere(s[1..], isSep)[0]);
      }
    }
  }

  lemma SplitWhereFirstStep(s: string, isSep: char -> bool, rest0: string)
    requires |s| > 0 && !isSep(s[0])
    requires rest0 == SplitWhere(s[1..], isSep)[0]
    requires StartsWith(s[1..], rest0)
    requires |rest0| < |s[1..]| ==> isSep(s[1..][|rest0|])
    ensures StartsWith(s, SplitWhere(s, isSep)[0])
    ensures |SplitWhere(s, isSep)[0]| < |s| ==> isSep(s[|SplitWhere(s, isSep)[0]|])
  {
    var first := [s[0]] + rest0;
    assert SplitWhere(s, isSep)[0] == first;
    assert s[..|first|] == first by {
      assert s[..|first|] == [s[0]] + s[1..][..|rest0|];
    }
    if |first| < |s| {
      assert s[|first|] == s[1..][|rest0|];
    }
  }

  /** Joining the pieces of a split with the separator gives back the string. */
  lemma {:induction false} JoinSplit(s: string, c: char)
    ensures Join(Split(s, c), [c]) == s
  {
    JoinSplitWhere(s, x => x == c, c);
  }

  lemma {:induction false} JoinSplitWhere(s: string, isSep: char -> bool, c: char)
    requires forall x :: isSep(x) <==> x == c
    ensures Join(SplitWhere(s, isSep), [c]) == s
  {
    if |s| > 0 {
      var rest := SplitWhere(s[1..], isSep);
      JoinSplitWhere(s[1..], isSep, c);
      if isSep(s[0]) {
        assert ([""] + rest)[1..] == rest;
      } else {
        var r := [[s[0]] + rest[0]] + rest[1..];
        if |rest| == 1 {
          assert r == [[s[0]] + rest[0]];
        } else {
          assert r[1..] == rest[1..];
          assert Join(rest, [c]) == rest[0] + [c] + Join(rest[1..], [c]);
        }
      }
    }
  }

  /** Splitting a string free of the separator gives it back as the only piece. */
  lemma {:induction false} SplitNoSep(s: string, c: char)
    requires c !in s
    ensures Split(s, c) == [s]
  {
    SplitWhereNoSep(s, x => x == c);
  }

  lemma {:induction false} SplitWhereNoSep(s: string, isSep: char -> bool)
    requires forall i :: 0 <= i < |s| ==> !isSep(s[i])
    ensures SplitWhere(s, isSep) == [s]
  {
    if |s| > 0 {
      SplitWhereNoSep(s[1..], isSep);
      assert [s[0]] + s[1..] == s;
    }
  }

  /** A separator-free head followed by the separator splits off as one piece. */
  lemma {:induction false} SplitWhereHead(a: string, x: char, b: string, isSep: char -> bool)
    requires forall i :: 0 <= i < |a| ==> !isSep(a[i])
    requires isSep(x)
    ensures SplitWhere(a + [x] + b, isSep) == [a] + SplitWhere(b, isSep)
  {
    if |a| == 0 {
      assert a + [x] + b == [x] + b;
      assert ([x] + b)[1..] == b;
    } else {
      assert (a + [x] + b)[1..] == a[1..] + [x] + b;
      SplitWhereHead(a[1..], x, b, isSep);
      assert [a[0]] + a[1..] == a;
    }
  }

  /** A head free of `c` followed by `c` is the first piece of `s.split(c)`. */
  lemma SplitHead(a: string, c: char, b: string)
    requires c !in a
    ensures Split(a + [c] + b, c) == [a] + Split(b, c)
  {
    SplitWhereHead(a, c, b, x => x == c);
  }

  /** Splitting a join gives back the parts, when no part holds the separator. */
  lemma {:induction false} SplitJoin(parts: seq<string>, c: char)
    requires |parts| >= 1
    requires forall i :: 0 <= i < |parts| ==> c !in parts[i]
    ensures Split(Join(parts, [c]), c) == parts
  {
    if |parts| == 1 {
      SplitNoSep(parts[0], c);
    } else {
      SplitJoin(parts[1..], c);
      assert Join(parts, [c]) == parts[0] + [c] + Join(parts[1..], [c]);
      SplitWhereHead(parts[0], c, Join(parts[1..], [c]), x => x == c);
      assert [parts[0]] + parts[1..] == parts;
    }
  }

  /** `s.split()` of words joined by single spaces gives the words back. */
  lemma {:induction false} WordsOfJoin(ws: seq<string>)
    requires forall i :: 0 <= i < |ws| ==> |ws[i]| > 0
    requires forall i, j :: 0 <= i < |ws| && 0 <= j < |ws[i]| ==> !IsSpace(ws[i][j])
    ensures Words(Join(ws, " ")) == ws
  {
    SplitWhereOfJoin(ws);
  }

  lemma {:induction false} SplitWhereOfJoin(ws: seq<string>)
    requires forall i :: 0 <= i < |ws| ==> |ws[i]| > 0
    requires forall i, j :: 0 <= i < |ws| && 0 <= j < |ws[i]| ==> !IsSpace(ws[i][j])
    ensures NonEmpty(SplitWhere(Join(ws, " "), IsSpace)) == ws
  {
    if |ws| == 0 {
    } else if |ws| == 1 {
      SplitWhereNoSep(ws[0], IsSpace);
    } else {
      SplitWhereOfJoin(ws[1..]);
      SplitWhereHead(ws[0], ' ', Join(ws[1..], " "), IsSpace);
      var ps := [ws[0]] + SplitWhere(Join(ws[1..], " "), IsSpace);
      assert ps[1..] == SplitWhere(Join(ws[1..], " "), IsSpace);
      assert [ws[0]] + ws[1..] == ws;
    }
  }

  // ---------------------------------------------------------------------------
  // Substrings and replacement

  predicate StartsWith(s: string, prefix: string) {
    |prefix| <= |s| && s[..|prefix|] == prefix
  }

  predicate EndsWith(s: string, suffix: string) {
    |suffix| <= |s| && s[|s| - |suffix|..] == suffix
  }

  /** `sub in s`. */
  predicate Contains(s: string, sub: string)
  {
    StartsWith(s, sub) || (|s| > 0 && Contains(s[1..], sub))
  }

  /** `sub` occurs in `s` starting at position `i`. */
  predicate OccursAt(s: string, sub: string, i: int) {
    0 <= i && i + |sub| <= |s| && s[i..i + |sub|] == sub
  }

  /** `sub in s` holds exactly when `sub` occurs at some position of `s`. */
  lemma {:induction false} ContainsIff(s: string, sub: string)
    ensures Contains(s, sub) <==> exists i :: OccursAt(s, sub, i)
  {
    if StartsWith(s, sub) {
      assert OccursAt(s, sub, 0);
    }
    if |s| > 0 {
      ContainsIff(s[1..], sub);
      if Contains(s[1..], sub) {
        var i :| OccursAt(s[1..], sub, i);
        assert s[1..][i..i + |sub|] == s[i + 1..i + 1 + |sub|];
        assert OccursAt(s, sub, i + 1);
      }
      if exists i :: OccursAt(s, sub, i) {
        var i :| OccursAt(s, sub, i);
        if i > 0 {
          assert s[1..][i - 1..i - 1 + |sub|] == s[i..i + |sub|];
          assert OccursAt(s[1..], sub, i - 1);
        } else {
          assert StartsWith(s, sub);
        }
      }
    } else {
      if exists i :: OccursAt(s, sub, i) {
        var i :| OccursAt(s, sub, i);
        assert StartsWith(s, sub);
      }
    }
  }

  /** `s.replace(pat, rep)`: every non-overlapping occurrence of `pat`, scanning
      from the left, is replaced by `rep`. */
  function ReplaceAll(s: string, pat: string, rep: string): (r: string)
    requires |pat| > 0
    decreases |s|
  {
    if |s| < |pat| then s
    else if s[..|pat|] == pat then rep + ReplaceAll(s[|pat|..], pat, rep)
    else [s[0]] + ReplaceAll(s[1..], pat, rep)
  }

  /** A leading occurrence of `pat` is replaced and the scan goes on after it. */
  lemma ReplaceLeading(pat: string, rest: string, rep: string)
    requires |pat| > 0
    ensures ReplaceAll(pat + rest, pat, rep) == rep + ReplaceAll(rest, pat, rep)
  {
    assert (pat + rest)[..|pat|] == pat;
    assert (pat + rest)[|pat|..] == rest;
  }

  /** A string that does not contain `pat` is left untouched. */
  lemma {:induction false} ReplaceAbsent(s: string, pat: string, rep: string)
    requires |pat| > 0
    requires !Contains(s, pat)
    ensures ReplaceAll(s, pat, rep) == s
  {
    if |s| >= |pat| {
      ReplaceAbsent(s[1..], pat, rep);
      assert [s[0]] + s[1..] == s;
    }
  }

  /** Replacing a single character works position by position. */
  lemma {:induction false} ReplaceChar(s: string, c: char, d: char)
    ensures |ReplaceAll(s, [c], [d])| == |s|
    ensures forall i :: 0 <= i < |s| ==>
              ReplaceAll(s, [c], [d])[i] == (if s[i] == c then d else s[i])
  {
    if |s| > 0 {
      ReplaceChar(s[1..], c, d);
      var r := ReplaceAll(s, [c], [d]);
      var rest := ReplaceAll(s[1..], [c], [d]);
      assert s[..1] == [s[0]];
      assert r == [if s[0] == c then d else s[0]] + rest;
    }
  }

  /** The characters of `s` other than those in `drop`, in order. */
  function Without(s: string, drop: set<char>): (r: string)
    ensures forall i :: 0 <= i < |r| ==> r[i] !in drop
    ensures |r| <= |s|
  {
    if |s| == 0 then ""
    else if s[0] in drop then Without(s[1..], drop)
    else [s[0]] + Without(s[1..], drop)
  }

  /** Replacing a single character by the empty string deletes it. */
  lemma {:induction false} RemoveChar(s: string, c: char)
    ensures ReplaceAll(s, [c], "") == Without(s, {c})
  {
    if |s| > 0 {
      RemoveChar(s[1..], c);
      assert s[..1] == [s[0]];
    }
  }

  /** Deleting two sets of characters one after the other deletes their union. */
  lemma {:induction false} WithoutTwice(s: string, a: set<char>, b: set<char>)
    ensures Without(Without(s, a), b) == Without(s, a + b)
  {
    if |s| > 0 {
      WithoutTwice(s[1..], a, b);
    }
  }

  /** Deleting characters that do not occur changes nothing. */
  lemma {:induction false} WithoutAbsent(s: string, drop: set<char>)
    requires forall i :: 0 <= i < |s| ==> s[i] !in drop
    ensures Without(s, drop) == s
  {
    if |s| > 0 {
      WithoutAbsent(s[1..], drop);
      assert [s[0]] + s[1..] == s;
    }
  }

  // ---------------------------------------------------------------------------
  // Lists

  /** No element occurs twice; directory listings have this property. */
  predicate Distinct<T(==)>(s: seq<T>) {
    forall i, j :: 0 <= i < j < |s| ==> s[i] != s[j]
  }

  /** A list extended by one element is without repeats exactly when the list
      is and the element is new. */
  lemma DistinctSnoc<T>(s: seq<T>, x: T)
    ensures Distinct(s + [x]) <==> Distinct(s) && x !in s
  {
    if Distinct(s + [x]) {
      forall i | 0 <= i < |s| ensures s[i] != x {
        assert (s + [x])[i] == s[i] && (s + [x])[|s|] == x;
      }
      forall i, j | 0 <= i < j < |s| ensures s[i] != s[j] {
        assert (s + [x])[i] == s[i] && (s + [x])[j] == s[j];
      }
    }
  }
}
