/** The JavaScript string operations the client is built from: `includes`,
    `startsWith`, `split` and `join` with a non-empty separator, the
    `split(p).join(r)` replace-all idiom, `String(n)` for integers and
    `parseInt(s, 10)`. A JavaScript string is modelled as a `string` whose
    characters are Unicode scalar values. */
module JsStrings {
  import opened Wrappers

  /** `s.startsWith(p)` */
  predicate StartsWith(s: string, p: string) {
    |p| <= |s| && s[..|p|] == p
  }

  /** `s.includes(p)`: an occurrence of `p` starts at the head of `s` or later. */
  predicate Includes(s: string, p: string)
    ensures Includes(s, p) ==> |p| <= |s|
    decreases |s|
  {
    StartsWith(s, p) || (|s| > 0 && Includes(s[1..], p))
  }

  /** The position-based reading of `includes`: some window of `s` equals `p`. */
  ghost predicate OccursAt(s: string, p: string, i: int) {
    0 <= i && i + |p| <= |s| && s[i..i + |p|] == p
  }

  lemma {:induction false} OccursGivesIncludes(s: string, p: string, i: int)
    requires OccursAt(s, p, i)
    ensures Includes(s, p)
    decreases i
  {
    if i == 0 {
      assert StartsWith(s, p);
    } else {
      assert s[1..][i - 1..i - 1 + |p|] == s[i..i + |p|];
      OccursGivesIncludes(s[1..], p, i - 1);
    }
  }

  lemma {:induction false} IncludesGivesOccurs(s: string, p: string) returns (i: int)
    requires Includes(s, p)
    ensures OccursAt(s, p, i)
    decreases |s|
  {
    if StartsWith(s, p) {
      i := 0;
    } else {
      var j := IncludesGivesOccurs(s[1..], p);
      assert s[j + 1..j + 1 + |p|] == s[1..][j..j + |p|];
      i := j + 1;
    }
  }

  /** A window equal to `p` makes `s` include `p`. */
  lemma IncludesAt(s: string, p: string, k: nat)
    requires k + |p| <= |s| && s[k..k + |p|] == p
    ensures Includes(s, p)
  {
    OccursGivesIncludes(s, p, k);
  }

  /** `Includes` agrees with the window-based definition. */
  lemma IncludesIffOccurs(s: string, p: string)
    ensures Includes(s, p) <==> exists i :: OccursAt(s, p, i)
  {
    if Includes(s, p) {
      var i := IncludesGivesOccurs(s, p);
    }
    forall i | OccursAt(s, p, i) {
      OccursGivesIncludes(s, p, i);
    }
  }

  /** A string none of whose characters is `c` contains no pattern starting with `c`. */
  lemma {:induction false} NotIncludesWithoutLead(s: string, p: string)
    requires |p| > 0
    requires forall i :: 0 <= i < |s| ==> s[i] != p[0]
    ensures !Includes(s, p)
    decreases |s|
  {
    if |s| > 0 {
      assert s[0] != p[0];
      NotIncludesWithoutLead(s[1..], p);
    }
  }

  /** Containing `p + q` implies containing `p`. */
  lemma {:induction false} IncludesPrefixOfPattern(s: string, p: string, q: string)
    requires Includes(s, p + q)
    ensures Includes(s, p)
    decreases |s|
  {
    if StartsWith(s, p + q) {
      assert s[..|p|] == (p + q)[..|p|] == p;
    } else {
      IncludesPrefixOfPattern(s[1..], p, q);
    }
  }

  /** A pattern that does not start with `c` occurs in `[c] + x` exactly
      when it occurs in `x`. */
  lemma IncludesCons(c: char, x: string, p: string)
    requires |p| > 0 && c != p[0]
    ensures Includes([c] + x, p) <==> Includes(x, p)
  {
    assert ([c] + x)[1..] == x;
    if |p| <= |[c] + x| {
      assert ([c] + x)[..|p|][0] == c;
    }
  }

  /** An occurrence of a two-character pattern in `a + b` lies in `a`, in
      `b`, or straddles the seam. */
  lemma IncludesConcat(a: string, b: string, p: string)
    requires |p| == 2 && Includes(a + b, p)
    ensures Includes(a, p) || Includes(b, p) || (|a| > 0 && |b| > 0 && a[|a| - 1] == p[0] && b[0] == p[1])
  {
    var s := a + b;
    var i := IncludesGivesOccurs(s, p);
    if i + 2 <= |a| {
      assert Includes(a, p) by {
        assert OccursAt(a, p, i) by {
          assert a[i..i + 2] == s[i..i + 2];
        }
        OccursGivesIncludes(a, p, i);
      }
    } else if i >= |a| {
      assert Includes(b, p) by {
        assert OccursAt(b, p, i - |a|) by {
          assert b[i - |a|..i - |a| + 2] == s[i..i + 2];
        }
        OccursGivesIncludes(b, p, i - |a|);
      }
    } else {
      assert s[i] == p[0] && s[i + 1] == p[1];
    }
  }

  /** `s.split(sep)` for a non-empty separator: the pieces between the
      occurrences of `sep`, found left to right without overlap. */
  function Split(s: string, sep: string): (parts: seq<string>)
    requires |sep| > 0
    ensures |parts| >= 1
    ensures parts[0] <= s
    ensures Includes(s, sep) <==> |parts| > 1
    ensures forall i :: 0 <= i < |parts| ==> |parts[i]| <= |s|
    ensures Includes(s, sep) ==> forall i :: 0 <= i < |parts| ==> |parts[i]| <= |s| - |sep|
    decreases |s|
  {
    if StartsWith(s, sep) then
      [""] + Split(s[|sep|..], sep)
    else if |s| == 0 then
      [""]
    else
      var rest := Split(s[1..], sep);
      [[s[0]] + rest[0]] + rest[1..]
  }

  /** `parts.join(sep)` */
  function Join(parts: seq<string>, sep: string): string
    decreases |parts|
  {
    if |parts| == 0 then ""
    else if |parts| == 1 then parts[0]
    else parts[0] + sep + Join(parts[1..], sep)
  }

  /** Joining one more part adds a separator and that part at the end. */
  lemma {:induction false} JoinAppend(parts: seq<string>, x: string, sep: string)
    requires |parts| >= 1
    ensures Join(parts + [x], sep) == Join(parts, sep) + sep + x
    decreases |parts|
  {
    assert (parts + [x])[0] == parts[0];
    assert (parts + [x])[1..] == parts[1..] + [x];
    if |parts| > 1 {
      JoinAppend(parts[1..], x, sep);
    }
  }

  lemma JoinPrependChar(c: char, parts: seq<string>, sep: string)
    requires |parts| >= 1
    ensures Join([[c] + parts[0]] + parts[1..], sep) == [c] + Join(parts, sep)
  {
    var q := [[c] + parts[0]] + parts[1..];
    assert q[1..] == parts[1..];
  }

  /** Splitting and re-joining with the same separator gives back the input. */
  lemma {:induction false} JoinSplit(s: string, sep: string)
    requires |sep| > 0
    ensures Join(Split(s, sep), sep) == s
    decreases |s|
  {
    if StartsWith(s, sep) {
      var rest := Split(s[|sep|..], sep);
      JoinSplit(s[|sep|..], sep);
      assert ([""] + rest)[1..] == rest;
      assert s == sep + s[|sep|..];
    } else if |s| > 0 {
      var rest := Split(s[1..], sep);
      JoinSplit(s[1..], sep);
      JoinPrependChar(s[0], rest, sep);
      assert s == [s[0]] + s[1..];
    }
  }

  /** No piece of a split contains the separator: the split cuts at every occurrence. */
  lemma {:induction false} SplitPiecesAreFree(s: string, sep: string)
    requires |sep| > 0
    ensures forall i :: 0 <= i < |Split(s, sep)| ==> !Includes(Split(s, sep)[i], sep)
    decreases |s|
  {
    var parts := Split(s, sep);
    if StartsWith(s, sep) {
      SplitPiecesAreFree(s[|sep|..], sep);
      assert !Includes("", sep);
      assert forall i :: 1 <= i < |parts| ==> parts[i] == Split(s[|sep|..], sep)[i - 1];
    } else if |s| > 0 {
      var rest := Split(s[1..], sep);
      SplitPiecesAreFree(s[1..], sep);
      var first := [s[0]] + rest[0];
      assert first[1..] == rest[0];
      assert rest[0] <= s[1..];
      assert first <= s;
      if |sep| <= |first| {
        assert first[..|sep|] == s[..|sep|];
      }
      assert !Includes(first, sep);
      assert forall i :: 1 <= i < |parts| ==> parts[i] == rest[i];
    }
  }

  /** Splitting `a + sep + b` where `a` never holds `sep`'s first character
      cuts exactly after `a`. */
  lemma {:induction false} SplitAfterPlain(a: string, sep: string, b: string)
    requires |sep| > 0
    requires forall i :: 0 <= i < |a| ==> a[i] != sep[0]
    ensures Split(a + sep + b, sep) == [a] + Split(b, sep)
    decreases |a|
  {
    var s := a + sep + b;
    if |a| == 0 {
      assert s == sep + b;
      assert StartsWith(s, sep);
      assert s[|sep|..] == b;
    } else {
      assert s[0] == a[0] != sep[0];
      assert !StartsWith(s, sep);
      assert s[1..] == a[1..] + sep + b;
      SplitAfterPlain(a[1..], sep, b);
      assert [s[0]] + a[1..] == a;
    }
  }

  /** Splitting `a + "//" + b` where `a` holds no `//` and does not end in
      `/` cuts exactly after `a`: the first occurrence is the one after it. */
  lemma {:induction false} SplitAfterFree(a: string, b: string)
    requires !Includes(a, "//") && (|a| == 0 || a[|a| - 1] != '/')
    ensures Split(a + "//" + b, "//") == [a] + Split(b, "//")
    decreases |a|
  {
    var s := a + "//" + b;
    if |a| == 0 {
      assert s == "//" + b;
      assert StartsWith(s, "//");
      assert s[2..] == b;
    } else {
      assert !StartsWith(s, "//") by {
        if |a| >= 2 {
          assert s[..2] == a[..2];
          assert !StartsWith(a, "//");
        } else {
          assert s[0] == a[0] && a[0] != '/';
        }
      }
      assert s[1..] == a[1..] + "//" + b;
      assert !Includes(a[1..], "//");
      assert |a[1..]| > 0 ==> a[1..][|a[1..]| - 1] == a[|a| - 1];
      SplitAfterFree(a[1..], b);
      assert [s[0]] + a[1..] == a;
    }
  }

  /** A string without the separator's first character splits into itself. */
  lemma SplitPlain(a: string, sep: string)
    requires |sep| > 0
    requires forall i :: 0 <= i < |a| ==> a[i] != sep[0]
    ensures Split(a, sep) == [a]
  {
    NotIncludesWithoutLead(a, sep);
    JoinSplit(a, sep);
  }

  /** A string without the separator splits into itself. */
  lemma SplitFree(s: string, sep: string)
    requires |sep| > 0 && !Includes(s, sep)
    ensures Split(s, sep) == [s]
  {
    JoinSplit(s, sep);
  }

  /** Joining never gets longer when the separator gets shorter, and gets
      strictly shorter when there is at least one separator to shorten. */
  lemma {:induction false} JoinShorter(parts: seq<string>, a: string, b: string)
    requires |a| <= |b|
    ensures |Join(parts, a)| <= |Join(parts, b)|
    ensures |parts| > 1 && |a| < |b| ==> |Join(parts, a)| < |Join(parts, b)|
    decreases |parts|
  {
    if |parts| > 1 {
      JoinShorter(parts[1..], a, b);
    }
  }

  /** `s.split(p).join(r)`: every non-overlapping occurrence of `p`, found left
      to right, replaced by `r`. */
  function ReplaceAll(s: string, p: string, r: string): (t: string)
    requires |p| > 0
    ensures |r| <= |p| ==> |t| <= |s|
    ensures |r| < |p| && Includes(s, p) ==> |t| < |s|
    ensures !Includes(s, p) ==> t == s
  {
    ReplaceAllLength(s, p, r);
    Join(Split(s, p), r)
  }

  lemma ReplaceAllLength(s: string, p: string, r: string)
    requires |p| > 0
    ensures |r| <= |p| ==> |Join(Split(s, p), r)| <= |s|
    ensures |r| < |p| && Includes(s, p) ==> |Join(Split(s, p), r)| < |s|
    ensures !Includes(s, p) ==> Join(Split(s, p), r) == s
  {
    JoinSplit(s, p);
    if |r| <= |p| {
      JoinShorter(Split(s, p), r, p);
    }
  }

  /** Replacing starts with `r` when the string starts with the pattern. */
  lemma ReplaceAllAtMatch(p: string, t: string, r: string)
    requires |p| > 0
    ensures ReplaceAll(p + t, p, r) == r + ReplaceAll(t, p, r)
  {
    var s := p + t;
    assert StartsWith(s, p);
    assert s[|p|..] == t;
    var rest := Split(t, p);
    assert Split(s, p) == [""] + rest;
    assert ([""] + rest)[1..] == rest;
  }

  /** A character that does not begin an occurrence of the pattern is kept. */
  lemma ReplaceAllSkip(c: char, t: string, p: string, r: string)
    requires |p| > 0 && (c != p[0] || !StartsWith(t, p[1..]))
    ensures ReplaceAll([c] + t, p, r) == [c] + ReplaceAll(t, p, r)
  {
    var s := [c] + t;
    assert s[1..] == t;
    if |p| <= |s| {
      assert s[..|p|] == [c] + t[..|p| - 1];
      assert p == [p[0]] + p[1..];
    }
    JoinPrependChar(c, Split(t, p), r);
  }

  // ---------------------------------------------------------------------
  // Numbers as text

  predicate IsDigit(c: char) {
    '0' <= c <= '9'
  }

  function DigitChar(d: nat): (c: char)
    requires d < 10
    ensures IsDigit(c)
  {
    ['0', '1', '2', '3', '4', '5', '6', '7', '8', '9'][d]
  }

  function DigitValue(c: char): (d: nat)
    requires IsDigit(c)
    ensures d < 10
  {
    c as int - '0' as int
  }

  /** Decimal digits of `n`, most significant first, without leading zeros. */
  function NatToString(n: nat): (s: string)
    ensures |s| >= 1
    ensures forall i :: 0 <= i < |s| ==> IsDigit(s[i])
  {
    if n < 10 then [DigitChar(n)] else NatToString(n / 10) + [DigitChar(n % 10)]
  }

  /** `String(n)` for an integer-valued number. */
  function IntToString(n: int): string {
    if n < 0 then "-" + NatToString(-n) else NatToString(n)
  }

  /** The value of a run of decimal digits. */
  function DigitsValue(ds: string): nat
    requires forall i :: 0 <= i < |ds| ==> IsDigit(ds[i])
  {
    if |ds| == 0 then 0 else DigitsValue(ds[..|ds| - 1]) * 10 + DigitValue(ds[|ds| - 1])
  }

  /** The white-space and line-terminator characters `parseInt` skips
      (sections 12.2 and 12.3 of ECMA-262, 2024 edition: TAB, VT, FF, SP, NBSP, ZWNBSP, the
      space separators of category Zs, LF, CR, LS and PS). */
  predicate IsJsWhitespace(c: char) {
    c == '\t' || c == '\n' || c == '\U{0B}' || c == '\U{0C}' || c == '\r' || c == ' '
    || c == '\U{A0}' || c == '\U{1680}' || ('\U{2000}' <= c <= '\U{200A}')
    || c == '\U{2028}' || c == '\U{2029}' || c == '\U{202F}' || c == '\U{205F}'
    || c == '\U{3000}' || c == '\U{FEFF}'
  }

  function TrimStart(s: string): (t: string)
    ensures |t| <= |s| && t == s[|s| - |t|..]
    ensures |t| > 0 ==> !IsJsWhitespace(t[0])
  {
    if |s| > 0 && IsJsWhitespace(s[0]) then TrimStart(s[1..]) else s
  }

  function TrimEnd(s: string): (t: string)
    ensures t <= s
    ensures |t| > 0 ==> !IsJsWhitespace(t[|t| - 1])
    ensures |s| > 0 && !IsJsWhitespace(s[0]) ==> |t| > 0
    decreases |s|
  {
    if |s| > 0 && IsJsWhitespace(s[|s| - 1]) then TrimEnd(s[..|s| - 1]) else s
  }

  /** The longest prefix of `s` made of decimal digits. */
  function DigitPrefix(s: string): (ds: string)
    ensures ds <= s
    ensures forall i :: 0 <= i < |ds| ==> IsDigit(ds[i])
    ensures |ds| < |s| ==> !IsDigit(s[|ds|])
  {
    if |s| > 0 && IsDigit(s[0]) then [s[0]] + DigitPrefix(s[1..]) else ""
  }

  /** No character of `s` is a decimal digit. */
  predicate NoDigits(s: string) {
    forall i :: 0 <= i < |s| ==> !IsDigit(s[i])
  }

  /** `parseInt(s, 10)`: leading white space skipped, an optional sign, then the
      longest run of decimal digits; None stands for NaN (no digit at all).
      A negative zero is returned as 0. */
  function ParseInt(s: string): (r: Option<int>)
    ensures NoDigits(s) ==> r == None
    ensures |s| > 0 && IsDigit(s[0]) ==> r.Some? && r.value >= 0
  {
    var t := TrimStart(s);
    var negative := |t| > 0 && t[0] == '-';
    var u := if |t| > 0 && (t[0] == '-' || t[0] == '+') then t[1..] else t;
    var ds := DigitPrefix(u);
    if |ds| == 0 then None
    else
      var v: int := DigitsValue(ds);
      Some(if negative then -v else v)
  }

  lemma {:induction false} DigitsOfNat(n: nat)
    ensures DigitsValue(NatToString(n)) == n
  {
    var s := NatToString(n);
    if n >= 10 {
      DigitsOfNat(n / 10);
      assert s[..|s| - 1] == NatToString(n / 10);
    }
  }

  /** The digit run ends where the digits do. */
  lemma {:induction false} DigitPrefixOfDigits(ds: string, rest: string)
    requires forall i :: 0 <= i < |ds| ==> IsDigit(ds[i])
    requires |rest| == 0 || !IsDigit(rest[0])
    ensures DigitPrefix(ds + rest) == ds
    decreases |ds|
  {
    if |ds| > 0 {
      DigitPrefixOfDigits(ds[1..], rest);
      assert (ds + rest)[1..] == ds[1..] + rest;
    } else {
      assert ds + rest == rest;
    }
  }

  lemma DigitIsNotSpace(c: char)
    requires IsDigit(c)
    ensures !IsJsWhitespace(c)
  {
  }

  lemma TrimStartStops(s: string)
    requires |s| > 0 && !IsJsWhitespace(s[0])
    ensures TrimStart(s) == s
  {
  }

  lemma ParseIntOfDigits(digits: string, rest: string)
    requires |digits| > 0 && forall i :: 0 <= i < |digits| ==> IsDigit(digits[i])
    requires |rest| == 0 || !IsDigit(rest[0])
    ensures ParseInt(digits + rest) == Some(DigitsValue(digits) as int)
  {
    DigitPrefixOfDigits(digits, rest);
    var s := digits + rest;
    assert s[0] == digits[0];
    DigitIsNotSpace(s[0]);
    TrimStartStops(s);
  }

  /** A minus sign, then a run of digits: the negated value. */
  lemma ParseIntOfMinus(t: string, ds: string)
    requires |t| > 0 && t[0] == '-' && |ds| > 0 && DigitPrefix(t[1..]) == ds
    ensures ParseInt(t) == Some(-(DigitsValue(ds) as int))
  {
    TrimStartStops(t);
  }

  lemma DropFirst(c: char, u: string)
    ensures ([c] + u)[0] == c && ([c] + u)[1..] == u
  {
  }

  lemma ParseIntOfSignedDigits(digits: string, rest: string)
    requires |digits| > 0 && forall i :: 0 <= i < |digits| ==> IsDigit(digits[i])
    requires |rest| == 0 || !IsDigit(rest[0])
    ensures ParseInt(['-'] + (digits + rest)) == Some(-(DigitsValue(digits) as int))
  {
    DropFirst('-', digits + rest);
    DigitPrefixOfDigits(digits, rest);
    ParseIntOfMinus(['-'] + (digits + rest), digits);
  }

  /** `parseInt(String(n) + rest, 10) == n` when `rest` does not go on with
      a digit: the two conversions are inverse on integers, and the digits
      end where the number's text does. */
  lemma ParseIntOfString(n: int, rest: string)
    requires |rest| == 0 || !IsDigit(rest[0])
    ensures ParseInt(IntToString(n) + rest) == Some(n)
  {
    if n < 0 {
      ParseIntOfNegative(n, rest);
    } else {
      var ds := NatToString(n);
      assert DigitsValue(ds) == n by {
        DigitsOfNat(n);
      }
      ParseIntOfDigits(ds, rest);
    }
  }

  lemma ParseIntOfNegative(n: int, rest: string)
    requires n < 0
    requires |rest| == 0 || !IsDigit(rest[0])
    ensures ParseInt(IntToString(n) + rest) == Some(n)
  {
    var m: nat := -n;
    var ds := NatToString(m);
    assert DigitsValue(ds) == -n by {
      DigitsOfNat(m);
    }
    assert IntToString(n) + rest == ['-'] + (ds + rest) by {
      NegativeText(n);
    }
    ParseIntNegativeOfDigits(n, ds, rest);
  }

  lemma ParseIntNegativeOfDigits(n: int, ds: string, rest: string)
    requires |ds| > 0 && forall i :: 0 <= i < |ds| ==> IsDigit(ds[i])
    requires |rest| == 0 || !IsDigit(rest[0])
    requires DigitsValue(ds) == -n && IntToString(n) + rest == ['-'] + (ds + rest)
    ensures ParseInt(IntToString(n) + rest) == Some(n)
  {
    ParseIntOfSignedDigits(ds, rest);
  }

  /** `Number(s)` for a string (section 7.1.4.1.1 of ECMA-262): white space
      trimmed at both ends, the empty string is 0, and an optional sign
      followed by decimal digits and nothing else is that integer. None
      stands for NaN, and also for the number forms the model does not
      represent (fractions, exponents, hexadecimal, `Infinity`). */
  function StringToNumber(s: string): (r: Option<int>)
    ensures |TrimStart(s)| == 0 ==> r == Some(0)
    ensures NoDigits(s) && |TrimStart(s)| > 0 ==> r == None
  {
    NumberOfTrimmed(TrimEnd(TrimStart(s)))
  }

  /** `Number` of a string already trimmed of white space. */
  function NumberOfTrimmed(t: string): Option<int> {
    if |t| == 0 then Some(0)
    else
      var u := if t[0] == '-' || t[0] == '+' then t[1..] else t;
      if |u| > 0 && DigitPrefix(u) == u then
        var v: int := DigitsValue(u);
        Some(if t[0] == '-' then -v else v)
      else None
  }

  /** `Number(String(n)) == n`: the two conversions are inverse on integers. */
  lemma StringToNumberOfString(n: int)
    ensures StringToNumber(IntToString(n)) == Some(n)
  {
    if n < 0 {
      StringToNumberOfNegative(n);
    } else {
      StringToNumberOfNat(n);
    }
  }

  lemma StringToNumberOfNat(n: nat)
    ensures StringToNumber(IntToString(n)) == Some(n)
  {
    var ds := NatToString(n);
    assert DigitsValue(ds) == n by {
      DigitsOfNat(n);
    }
    assert IntToString(n) == ds;
    StringToNumberOfDigits(ds);
  }

  lemma StringToNumberOfNegative(n: int)
    requires n < 0
    ensures StringToNumber(IntToString(n)) == Some(n)
  {
    var m: nat := -n;
    var ds := NatToString(m);
    assert DigitsValue(ds) == -n by {
      DigitsOfNat(m);
    }
    assert IntToString(n) == ['-'] + ds by {
      NegativeText(n);
    }
    NegativeOfDigits(n, ds);
  }

  lemma NegativeOfDigits(n: int, ds: string)
    requires |ds| > 0 && forall i :: 0 <= i < |ds| ==> IsDigit(ds[i])
    requires DigitsValue(ds) == -n && IntToString(n) == ['-'] + ds
    ensures StringToNumber(IntToString(n)) == Some(n)
  {
    StringToNumberOfSigned(ds);
  }

  lemma NegativeText(n: int)
    requires n < 0
    ensures IntToString(n) == ['-'] + NatToString(-n)
  {
  }

  /** A string that neither starts nor ends with white space is not trimmed. */
  lemma TrimmedAlready(s: string)
    requires |s| > 0 && !IsJsWhitespace(s[0]) && !IsJsWhitespace(s[|s| - 1])
    ensures TrimEnd(TrimStart(s)) == s
  {
  }

  lemma StringToNumberOfDigits(ds: string)
    requires |ds| > 0 && forall i :: 0 <= i < |ds| ==> IsDigit(ds[i])
    ensures StringToNumber(ds) == Some(DigitsValue(ds) as int)
  {
    DigitsAreTrimmed(ds);
    NumberOfDigits(ds);
  }

  /** Digits need no trimming. */
  lemma DigitsAreTrimmed(ds: string)
    requires |ds| > 0 && IsDigit(ds[0]) && IsDigit(ds[|ds| - 1])
    ensures StringToNumber(ds) == NumberOfTrimmed(ds)
  {
    DigitIsNotSpace(ds[0]);
    DigitIsNotSpace(ds[|ds| - 1]);
    TrimmedAlready(ds);
    StringToNumberOfTrimmed(ds);
  }

  lemma StringToNumberOfSigned(ds: string)
    requires |ds| > 0 && forall i :: 0 <= i < |ds| ==> IsDigit(ds[i])
    ensures StringToNumber(['-'] + ds) == Some(-(DigitsValue(ds) as int))
  {
    SignedIsTrimmed(ds);
    NumberOfNegative(ds);
  }

  /** A minus sign and digits need no trimming. */
  lemma SignedIsTrimmed(ds: string)
    requires |ds| > 0 && IsDigit(ds[|ds| - 1])
    ensures StringToNumber(['-'] + ds) == NumberOfTrimmed(['-'] + ds)
  {
    var s := ['-'] + ds;
    DigitIsNotSpace(ds[|ds| - 1]);
    assert s[|s| - 1] == ds[|ds| - 1];
    TrimmedAlready(s);
    StringToNumberOfTrimmed(s);
  }

  lemma StringToNumberOfTrimmed(s: string)
    requires TrimEnd(TrimStart(s)) == s
    ensures StringToNumber(s) == NumberOfTrimmed(s)
  {
  }

  /** Digits alone are read as their value. */
  lemma NumberOfDigits(ds: string)
    requires |ds| > 0 && forall i :: 0 <= i < |ds| ==> IsDigit(ds[i])
    ensures NumberOfTrimmed(ds) == Some(DigitsValue(ds) as int)
  {
    WholeDigitPrefix(ds);
    assert IsDigit(ds[0]);
  }

  /** Digits after a minus sign are read as their negated value. */
  lemma NumberOfNegative(ds: string)
    requires |ds| > 0 && forall i :: 0 <= i < |ds| ==> IsDigit(ds[i])
    ensures NumberOfTrimmed(['-'] + ds) == Some(-(DigitsValue(ds) as int))
  {
    WholeDigitPrefix(ds);
    DropFirst('-', ds);
  }

  lemma WholeDigitPrefix(ds: string)
    requires forall i :: 0 <= i < |ds| ==> IsDigit(ds[i])
    ensures DigitPrefix(ds) == ds
  {
    DigitPrefixOfDigits(ds, "");
    assert ds + "" == ds;
  }
}
