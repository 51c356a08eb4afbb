/**
 * The pieces of Python's string handling that the timer relies on:
 * str.isspace / str.strip, int() on a text field, and decimal rendering
 * with the "02d" zero padding of an f-string.
 */
module Text {
  import opened Wrappers

  /** Python's str.isspace() for one character: the characters str.strip() discards. */
  predicate IsSpace(c: char) {
    ('\t' <= c <= '\r') || ('\U{1C}' <= c <= '\U{1F}') || c == ' '
    || c == '\U{85}' || c == '\U{A0}' || c == '\U{1680}'
    || ('\U{2000}' <= c <= '\U{200A}') || c == '\U{2028}' || c == '\U{2029}'
    || c == '\U{202F}' || c == '\U{205F}' || c == '\U{3000}'
  }

  /**
   * The characters int() skips around a number. Below U+007F only the six
   * ASCII whitespace characters are skipped; the separators U+001C to U+001F,
   * which str.isspace() accepts, are not.
   */
  predicate IsIntSpace(c: char) {
    IsSpace(c) && !('\U{1C}' <= c <= '\U{1F}')
  }

  /** Every character of s is in the class p. */
  predicate AllIn(s: string, p: char -> bool) {
    forall i :: 0 <= i < |s| ==> p(s[i])
  }

  /** A text with nothing but whitespace in it (the empty text included). */
  predicate IsBlank(s: string) {
    AllIn(s, IsSpace)
  }

  /** The number of characters of the class p that s starts with. */
  function LeadingRun(s: string, p: char -> bool): (n: nat)
    ensures n <= |s|
    ensures forall i :: 0 <= i < n ==> p(s[i])
    ensures n < |s| ==> !p(s[n])
  {
    if s != [] && p(s[0]) then 1 + LeadingRun(s[1..], p) else 0
  }

  /** The number of characters of the class p that s ends with. */
  function TrailingRun(s: string, p: char -> bool): (n: nat)
    ensures n <= |s|
    ensures forall i :: |s| - n <= i < |s| ==> p(s[i])
    ensures n < |s| ==> !p(s[|s| - 1 - n])
  {
    if s != [] && p(s[|s| - 1]) then 1 + TrailingRun(s[..|s| - 1], p) else 0
  }

  /** Drops the leading characters of the class p, keeps the rest as it is. */
  function TrimStart(s: string, p: char -> bool): (r: string)
    ensures |r| <= |s| && r == s[|s| - |r|..]
    ensures r == [] || !p(r[0])
    ensures forall i :: 0 <= i < |s| - |r| ==> p(s[i])
  {
    s[LeadingRun(s, p)..]
  }

  /** Drops the trailing characters of the class p, keeps the rest as it is. */
  function TrimEnd(s: string, p: char -> bool): (r: string)
    ensures |r| <= |s| && r == s[..|r|]
    ensures r == [] || !p(r[|r| - 1])
    ensures forall i :: |r| <= i < |s| ==> p(s[i])
  {
    s[..|s| - TrailingRun(s, p)]
  }

  /**
   * Both ends trimmed of the class p: empty exactly when s is all in p,
   * otherwise a slice of s that starts and ends outside p.
   */
  function StripBy(s: string, p: char -> bool): (r: string)
    ensures |r| <= |s|
    ensures r == [] <==> AllIn(s, p)
    ensures r != [] ==> !p(r[0]) && !p(r[|r| - 1])
    ensures LeadingRun(s, p) + |r| <= |s| && r == s[LeadingRun(s, p)..LeadingRun(s, p) + |r|]
  {
    TrimEnd(TrimStart(s, p), p)
  }

  /** s.strip(): empty exactly for a blank text, otherwise starts and ends with a non-space. */
  function Strip(s: string): (r: string)
    ensures |r| <= |s|
    ensures r == [] <==> IsBlank(s)
    ensures r != [] ==> !IsSpace(r[0]) && !IsSpace(r[|r| - 1])
  {
    StripBy(s, IsSpace)
  }

  /** Whitespace around a text does not change what strip() returns. */
  lemma StripPadded(lead: string, t: string, trail: string)
    requires IsBlank(lead) && IsBlank(trail)
    ensures Strip(lead + t + trail) == Strip(t)
  {
    StripByPadded(lead, t, trail, IsSpace);
  }

  /** Characters of the class p around a text do not change what StripBy returns. */
  lemma StripByPadded(lead: string, t: string, trail: string, p: char -> bool)
    requires AllIn(lead, p) && AllIn(trail, p)
    ensures StripBy(lead + t + trail, p) == StripBy(t, p)
  {
    var whole := lead + t + trail;
    assert whole == lead + (t + trail);
    if AllIn(t, p) {
      AllInConcat(lead, t, p);
      AllInConcat(lead + t, trail, p);
    } else {
      TrimStartPadded(lead, t + trail, p);
      TrimStartKeeps(t, trail, p);
      assert TrimStart(whole, p) == TrimStart(t, p) + trail;
      TrimEndPadded(TrimStart(t, p), trail, p);
      assert TrimEnd(TrimStart(whole, p), p) == TrimEnd(TrimStart(t, p), p);
    }
  }

  lemma AllInConcat(a: string, b: string, p: char -> bool)
    requires AllIn(a, p) && AllIn(b, p)
    ensures AllIn(a + b, p)
  {
    forall i | 0 <= i < |a + b| ensures p((a + b)[i]) {
      if i >= |a| {
        assert (a + b)[i] == b[i - |a|];
      }
    }
  }

  lemma TrimStartPadded(lead: string, t: string, p: char -> bool)
    requires AllIn(lead, p)
    ensures TrimStart(lead + t, p) == TrimStart(t, p)
  {
    LeadingRunPadded(lead, t, p);
    assert (lead + t)[|lead| + LeadingRun(t, p)..] == t[LeadingRun(t, p)..];
  }

  lemma {:induction false} LeadingRunPadded(lead: string, t: string, p: char -> bool)
    requires AllIn(lead, p)
    ensures LeadingRun(lead + t, p) == |lead| + LeadingRun(t, p)
    decreases |lead|
  {
    if lead == [] {
      assert lead + t == t;
    } else {
      assert (lead + t)[0] == lead[0];
      assert (lead + t)[1..] == lead[1..] + t;
      LeadingRunPadded(lead[1..], t, p);
    }
  }

  lemma TrimStartKeeps(t: string, trail: string, p: char -> bool)
    requires !AllIn(t, p)
    ensures TrimStart(t + trail, p) == TrimStart(t, p) + trail
  {
    LeadingRunKept(t, trail, p);
    var k := LeadingRun(t, p);
    assert (t + trail)[k..] == t[k..] + trail;
  }

  lemma {:induction false} LeadingRunKept(t: string, trail: string, p: char -> bool)
    requires !AllIn(t, p)
    ensures LeadingRun(t + trail, p) == LeadingRun(t, p)
    decreases |t|
  {
    assert (t + trail)[0] == t[0];
    if p(t[0]) {
      assert (t + trail)[1..] == t[1..] + trail;
      assert !AllIn(t[1..], p) by {
        var i :| 0 <= i < |t| && !p(t[i]);
        assert t[1..][i - 1] == t[i];
      }
      LeadingRunKept(t[1..], trail, p);
    }
  }

  lemma TrimEndPadded(u: string, trail: string, p: char -> bool)
    requires AllIn(trail, p)
    ensures TrimEnd(u + trail, p) == TrimEnd(u, p)
  {
    TrailingRunPadded(u, trail, p);
    var k := TrailingRun(u, p);
    assert (u + trail)[..|u| - k] == u[..|u| - k];
  }

  lemma {:induction false} TrailingRunPadded(u: string, trail: string, p: char -> bool)
    requires AllIn(trail, p)
    ensures TrailingRun(u + trail, p) == |trail| + TrailingRun(u, p)
    decreases |trail|
  {
    if trail == [] {
      assert u + trail == u;
    } else {
      var w := u + trail;
      assert w[|w| - 1] == trail[|trail| - 1];
      assert w[..|w| - 1] == u + trail[..|trail| - 1];
      TrailingRunPadded(u, trail[..|trail| - 1], p);
    }
  }

  /** A text that already starts and ends with a non-space is its own strip(). */
  lemma StripUnpadded(t: string, p: char -> bool)
    requires t != [] && !p(t[0]) && !p(t[|t| - 1])
    ensures StripBy(t, p) == t
  {
  }

  // ---------------------------------------------------------------------------
  // Reading a file in text mode

  /**
   * What a file read in text mode with universal newlines yields: "\r\n" and
   * a lone "\r" both become "\n"; every other character is kept.
   */
  function ReadNewlines(s: string): (r: string)
    ensures |r| <= |s|
    ensures '\r' !in r
    ensures '\r' !in s ==> r == s
    decreases |s|
  {
    if s == [] then []
    else if s[0] == '\r' then "\n" + ReadNewlines(if |s| > 1 && s[1] == '\n' then s[2..] else s[1..])
    else [s[0]] + ReadNewlines(s[1..])
  }

  /** A text is blank exactly when what is read of it is blank. */
  lemma {:induction false} ReadNewlinesBlank(s: string)
    ensures IsBlank(ReadNewlines(s)) <==> IsBlank(s)
    decreases |s|
  {
    if s != [] {
      var k := if s[0] == '\r' && |s| > 1 && s[1] == '\n' then 2 else 1;
      var c := if s[0] == '\r' then '\n' else s[0];
      ReadNewlinesBlank(s[k..]);
      assert ReadNewlines(s) == [c] + ReadNewlines(s[k..]);
      BlankCons(c, ReadNewlines(s[k..]));
      if k == 2 {
        assert s == [s[0]] + ([s[1]] + s[2..]);
        BlankCons(s[1], s[2..]);
      } else {
        assert s == [s[0]] + s[1..];
      }
      BlankCons(s[0], s[1..]);
    }
  }

  lemma BlankCons(c: char, t: string)
    ensures IsBlank([c] + t) <==> IsSpace(c) && IsBlank(t)
  {
    BlankSplit([c], t);
    assert IsBlank([c]) <==> IsSpace([c][0]);
  }

  lemma BlankSplit(a: string, b: string)
    ensures IsBlank(a + b) <==> IsBlank(a) && IsBlank(b)
  {
    if IsBlank(a + b) {
      forall i | 0 <= i < |b| ensures IsSpace(b[i]) {
        assert (a + b)[|a| + i] == b[i];
      }
      forall i | 0 <= i < |a| ensures IsSpace(a[i]) {
        assert (a + b)[i] == a[i];
      }
    }
    if IsBlank(a) && IsBlank(b) {
      AllInConcat(a, b, IsSpace);
    }
  }

  /** Texts read one after the other give what the joined text gives, unless a "\r\n" is split between them. */
  lemma {:induction false} ReadNewlinesAppend(a: string, b: string)
    requires a == [] || b == [] || a[|a| - 1] != '\r' || b[0] != '\n'
    ensures ReadNewlines(a + b) == ReadNewlines(a) + ReadNewlines(b)
    decreases |a|
  {
    if a == [] {
      assert a + b == b;
    } else {
      var k := BreakLength(a);
      var c := if a[0] == '\r' then '\n' else a[0];
      var w := a + b;
      assert w[0] == a[0];
      assert |a| > 1 ==> w[1] == a[1];
      assert BreakLength(w) == k;
      assert w[k..] == a[k..] + b;
      assert ReadNewlines(a) == [c] + ReadNewlines(a[k..]);
      assert ReadNewlines(w) == [c] + ReadNewlines(w[k..]);
      var rest := a[k..];
      assert rest != [] ==> rest[|rest| - 1] == a[|a| - 1];
      ReadNewlinesAppend(rest, b);
      var x, y := ReadNewlines(rest), ReadNewlines(b);
      assert ReadNewlines(w) == [c] + (x + y);
      ConcatAssoc([c], x, y);
    }
  }

  lemma ConcatAssoc(a: string, b: string, c: string)
    ensures a + b + c == a + (b + c)
  {
  }

  /** How many characters the first line break or character of s takes: 2 for "\r\n", 1 otherwise. */
  function BreakLength(s: string): nat
    requires s != []
  {
    if s[0] == '\r' && |s| > 1 && s[1] == '\n' then 2 else 1
  }

  /** First pass of the reference reading: every "\r\n" becomes "\n". */
  function ReplaceCRLF(s: string): (r: string)
    ensures |r| <= |s|
    decreases |s|
  {
    if s == [] then []
    else if |s| > 1 && s[0] == '\r' && s[1] == '\n' then "\n" + ReplaceCRLF(s[2..])
    else [s[0]] + ReplaceCRLF(s[1..])
  }

  /** Second pass of the reference reading: every remaining '\r' becomes '\n', position by position. */
  function CRToLF(t: string): (r: string)
    ensures |r| == |t|
    ensures '\r' !in r
  {
    seq(|t|, i requires 0 <= i < |t| => if t[i] == '\r' then '\n' else t[i])
  }

  lemma CRToLFCons(c: char, t: string)
    ensures CRToLF([c] + t) == [if c == '\r' then '\n' else c] + CRToLF(t)
  {
    var w := [c] + t;
    forall i | 0 <= i < |t| ensures CRToLF(w)[i + 1] == CRToLF(t)[i] {
      assert w[i + 1] == t[i];
    }
  }

  /**
   * The one-pass text-mode read agrees with the two-pass reference: "\r\n"
   * becomes "\n", then every lone '\r' becomes '\n'.
   */
  lemma {:induction false} ReadNewlinesTwoPass(s: string)
    ensures ReadNewlines(s) == CRToLF(ReplaceCRLF(s))
    decreases |s|
  {
    if s != [] {
      if |s| > 1 && s[0] == '\r' && s[1] == '\n' {
        ReadNewlinesTwoPass(s[2..]);
        CRToLFCons('\n', ReplaceCRLF(s[2..]));
      } else {
        ReadNewlinesTwoPass(s[1..]);
        CRToLFCons(s[0], ReplaceCRLF(s[1..]));
      }
    }
  }

  // ---------------------------------------------------------------------------
  // Decimal digits

  predicate IsDigit(c: char) {
    '0' <= c <= '9'
  }

  predicate AllDigits(s: string) {
    forall i :: 0 <= i < |s| ==> IsDigit(s[i])
  }

  function DigitChar(d: nat): (c: char)
    requires d < 10
    ensures IsDigit(c) && c as int - '0' as int == d
  {
    ('0' as int + d) as char
  }

  function DigitValue(c: char): (d: nat)
    requires IsDigit(c)
    ensures d < 10
  {
    c as int - '0' as int
  }

  /** The number a string of decimal digits denotes (leading zeros allowed). */
  function DigitsValue(s: string): (v: nat)
    requires AllDigits(s)
  {
    if s == [] then 0 else DigitsValue(s[..|s| - 1]) * 10 + DigitValue(s[|s| - 1])
  }

  /** str(n) for a natural number: at least one digit, no leading zero except for 0 itself. */
  function ShowNat(n: nat): (r: string)
    ensures r != [] && AllDigits(r)
    ensures r[0] == '0' ==> n == 0
    ensures |r| == 1 <==> n < 10
  {
    if n < 10 then [DigitChar(n)] else ShowNat(n / 10) + [DigitChar(n % 10)]
  }

  /** Reading the rendering back gives the number. */
  lemma {:induction false} ShowNatValue(n: nat)
    ensures DigitsValue(ShowNat(n)) == n
  {
    if n >= 10 {
      var s := ShowNat(n);
      assert s[..|s| - 1] == ShowNat(n / 10);
      ShowNatValue(n / 10);
    }
  }

  /** str(n) for any integer: a minus sign, then the digits of the magnitude. */
  function ShowInt(n: int): (r: string)
    ensures r != [] && (n < 0 <==> r[0] == '-')
    ensures n >= 0 ==> r == ShowNat(n)
    ensures n < 0 ==> r[1..] == ShowNat(-n)
  {
    if n < 0 then "-" + ShowNat(-n) else ShowNat(n)
  }

  /** A run of n copies of c, as in Python's c * n. */
  function Repeat(c: char, n: nat): (r: string)
    ensures |r| == n && forall i :: 0 <= i < n ==> r[i] == c
  {
    if n == 0 then [] else [c] + Repeat(c, n - 1)
  }

  /** The "0<width>d" format of an f-string: zeros on the left up to the width, never truncated. */
  function ZeroPad(digits: string, width: nat): (r: string)
    ensures |r| == if |digits| < width then width else |digits|
    ensures r[|r| - |digits|..] == digits
    ensures forall i :: 0 <= i < |r| - |digits| ==> r[i] == '0'
  {
    if |digits| < width then Repeat('0', width - |digits|) + digits else digits
  }

  /** Leading zeros do not change the value of a digit string. */
  lemma {:induction false} LeadingZerosValue(zeros: string, s: string)
    requires AllDigits(s) && forall i :: 0 <= i < |zeros| ==> zeros[i] == '0'
    ensures AllDigits(zeros + s) && DigitsValue(zeros + s) == DigitsValue(s)
    decreases |s|
  {
    var w := zeros + s;
    if s == [] {
      assert w == zeros;
      AllZerosValue(zeros);
    } else {
      assert w[..|w| - 1] == zeros + s[..|s| - 1];
      LeadingZerosValue(zeros, s[..|s| - 1]);
    }
  }

  lemma {:induction false} AllZerosValue(zeros: string)
    requires forall i :: 0 <= i < |zeros| ==> zeros[i] == '0'
    ensures AllDigits(zeros) && DigitsValue(zeros) == 0
  {
    if zeros != [] {
      AllZerosValue(zeros[..|zeros| - 1]);
    }
  }

  // ---------------------------------------------------------------------------
  // Python's int() on a text field, base 10

  /**
   * The body int() accepts after the sign: digits, where a single '_' may
   * stand between two digits.
   */
  predicate IsDigitGroup(s: string) {
    |s| > 0 && IsDigit(s[0]) && IsDigit(s[|s| - 1]) &&
    (forall i :: 0 <= i < |s| ==> IsDigit(s[i]) || s[i] == '_') &&
    NoDoubleUnderscore(s)
  }

  predicate NoDoubleUnderscore(s: string) {
    |s| < 2 || (!(s[0] == '_' && s[1] == '_') && NoDoubleUnderscore(s[1..]))
  }

  lemma {:induction false} DigitsHaveNoUnderscore(s: string)
    requires AllDigits(s)
    ensures NoDoubleUnderscore(s)
  {
    if |s| >= 2 {
      assert IsDigit(s[0]);
      DigitsHaveNoUnderscore(s[1..]);
    }
  }

  function RemoveUnderscores(s: string): (r: string)
    ensures (forall i :: 0 <= i < |s| ==> IsDigit(s[i]) || s[i] == '_') ==> AllDigits(r)
    ensures AllDigits(s) ==> r == s
  {
    if s == [] then []
    else if s[|s| - 1] == '_' then RemoveUnderscores(s[..|s| - 1])
    else RemoveUnderscores(s[..|s| - 1]) + [s[|s| - 1]]
  }

  /**
   * The most decimal digits CPython's int() reads and str() writes, by
   * default (sys.get_int_max_str_digits()); underscores do not count, leading
   * zeros do.
   */
  const MaxStrDigits: nat := 4300

  /** A digit group worth its digits, if it does not exceed the digit limit. */
  function ParseDigitGroup(s: string): Option<nat> {
    if !IsDigitGroup(s) then None
    else if |RemoveUnderscores(s)| > MaxStrDigits then None
    else Some(DigitsValue(RemoveUnderscores(s)))
  }

  function Magnitude(n: int): nat {
    if n < 0 then -n else n
  }

  /** str(n) succeeds: the magnitude has at most MaxStrDigits digits. */
  predicate Renderable(n: int) {
    |ShowNat(Magnitude(n))| <= MaxStrDigits
  }

  /**
   * int(text): surrounding whitespace (as int() counts it) is ignored, then an
   * optional sign, then a digit group; anything else is a ValueError, here None.
   */
  function ParseInt(text: string): Option<int> {
    ParseSigned(StripBy(text, IsIntSpace))
  }

  /** int() on text that has already been stripped. */
  function ParseSigned(t: string): Option<int> {
    if t != [] && (t[0] == '-' || t[0] == '+') then
      match ParseDigitGroup(t[1..])
      case None => None
      case Some(n) => Some(if t[0] == '-' then -(n as int) else n as int)
    else
      match ParseDigitGroup(t)
      case None => None
      case Some(n) => Some(n as int)
  }

  /** int(str(n)) == n whenever str(n) succeeds. */
  lemma ParseShowInt(n: int)
    requires Renderable(n)
    ensures ParseInt(ShowInt(n)) == Some(n)
  {
    var s := ShowInt(n);
    assert !IsIntSpace(s[0]) && !IsIntSpace(s[|s| - 1]);
    StripUnpadded(s, IsIntSpace);
    ParseSignedShowInt(n);
  }

  lemma ParseSignedShowInt(n: int)
    requires Renderable(n)
    ensures ParseSigned(ShowInt(n)) == Some(n)
  {
    if n < 0 {
      ParseSignedNegative(n);
    } else {
      ParseSignedNatural(n);
    }
  }

  lemma ParseSignedNegative(n: int)
    requires n < 0 && Renderable(n)
    ensures ParseSigned(ShowInt(n)) == Some(n)
  {
    var d := ShowNat(-n);
    var s := "-" + d;
    assert ShowInt(n) == s;
    assert s[0] == '-' && s[1..] == d;
    ParseShowNat(-n);
    assert ParseDigitGroup(s[1..]) == Some(-n);
  }

  lemma ParseSignedNatural(n: nat)
    requires Renderable(n)
    ensures ParseSigned(ShowInt(n)) == Some(n)
  {
    var s := ShowNat(n);
    assert ShowInt(n) == s && IsDigit(s[0]);
    ParseShowNat(n);
  }

  /** The digits of a natural number within the limit form a digit group worth that number. */
  lemma ParseShowNat(n: nat)
    requires |ShowNat(n)| <= MaxStrDigits
    ensures ParseDigitGroup(ShowNat(n)) == Some(n)
  {
    var digits := ShowNat(n);
    DigitsHaveNoUnderscore(digits);
    assert IsDigitGroup(digits);
    assert RemoveUnderscores(digits) == digits;
    ShowNatValue(n);
  }

  /** Whatever int() returns, str() can render again: the digit limit bounds both. */
  lemma ParseIntRenderable(text: string)
    requires ParseInt(text).Some?
    ensures Renderable(ParseInt(text).value)
  {
    var t := StripBy(text, IsIntSpace);
    assert ParseInt(text) == ParseSigned(t);
    if t != [] && (t[0] == '-' || t[0] == '+') {
      var n := ParseDigitGroup(t[1..]).value;
      assert Magnitude(ParseSigned(t).value) == n;
      DigitGroupRenderable(t[1..]);
    } else {
      DigitGroupRenderable(t);
    }
  }

  lemma DigitGroupRenderable(g: string)
    requires ParseDigitGroup(g).Some?
    ensures |ShowNat(ParseDigitGroup(g).value)| <= MaxStrDigits
  {
    ShowNatShorter(RemoveUnderscores(g));
  }

  /** Rendering the value of a digit string takes no more digits than the string has (at least one). */
  lemma {:induction false} ShowNatShorter(d: string)
    requires AllDigits(d)
    ensures |ShowNat(DigitsValue(d))| <= if |d| == 0 then 1 else |d|
    decreases |d|
  {
    var v := DigitsValue(d);
    if |d| > 1 && v >= 10 {
      var front := d[..|d| - 1];
      ShowNatShorter(front);
      assert v / 10 == DigitsValue(front);
    }
  }

  /** Whitespace that int() skips, typed around the number, is accepted. */
  lemma ParseIntPadded(lead: string, t: string, trail: string)
    requires AllIn(lead, IsIntSpace) && AllIn(trail, IsIntSpace)
    ensures ParseInt(lead + t + trail) == ParseInt(t)
  {
    StripByPadded(lead, t, trail, IsIntSpace);
  }

  /** An empty or blank field is never a number. */
  lemma ParseIntBlank(text: string)
    requires IsBlank(text)
    ensures ParseInt(text) == None
  {
    var t := StripBy(text, IsIntSpace);
    if t != [] {
      var k := LeadingRun(text, IsIntSpace);
      assert t[0] == text[k];
      assert IsSpace(t[0]) && !IsIntSpace(t[0]);
      assert !IsDigit(t[0]) && t[0] != '-' && t[0] != '+';
    }
  }

  /** U+001C is whitespace to strip() but not to int(): the text "\u001c5" strips to "5", yet int() rejects it. */
  lemma SeparatorIsNoIntSpace()
    ensures Strip("\U{1C}5") == "5" && ParseInt("\U{1C}5") == None
  {
    var s := "\U{1C}5";
    assert IsSpace(s[0]) && !IsIntSpace(s[0]) && !IsSpace(s[1]);
    assert s[1..] == "5";
    assert LeadingRun(s, IsSpace) == 1;
    assert TrailingRun(s, IsSpace) == 0;
    StripUnpadded(s, IsIntSpace);
    assert !IsDigitGroup(s);
  }

  /**
   * Leading zeros and a sign are accepted, as int() accepts "05", "+5" and
   * "-05", as long as all the digits, zeros included, fit the limit.
   */
  lemma ParseIntLeadingZeros(k: nat, n: nat)
    requires k + |ShowNat(n)| <= MaxStrDigits
    ensures ParseInt(Repeat('0', k) + ShowNat(n)) == Some(n)
    ensures ParseInt("+" + Repeat('0', k) + ShowNat(n)) == Some(n)
    ensures ParseInt("-" + Repeat('0', k) + ShowNat(n)) == Some(-(n as int))
  {
    var d := ZeroPadded(k, n);
    ParseUnsigned(d);
    UnsignedGroup(d, n);
    SignedZeroPadded('+', d, n);
    SignedZeroPadded('-', d, n);
    ConcatAssoc("+", Repeat('0', k), ShowNat(n));
    ConcatAssoc("-", Repeat('0', k), ShowNat(n));
  }

  /** The digits of n after k zeros: a digit group worth n, when they fit the limit. */
  lemma ZeroPadded(k: nat, n: nat) returns (d: string)
    requires k + |ShowNat(n)| <= MaxStrDigits
    ensures d == Repeat('0', k) + ShowNat(n)
    ensures d != [] && IsDigit(d[0]) && IsDigit(d[|d| - 1])
    ensures ParseDigitGroup(d) == Some(n)
  {
    d := Repeat('0', k) + ShowNat(n);
    LeadingZerosValue(Repeat('0', k), ShowNat(n));
    ShowNatValue(n);
    ParseDigits(d);
  }

  lemma SignedZeroPadded(sign: char, d: string, n: nat)
    requires sign == '+' || sign == '-'
    requires d != [] && IsDigit(d[|d| - 1]) && ParseDigitGroup(d) == Some(n)
    ensures ParseInt([sign] + d) == Some(if sign == '-' then -(n as int) else n as int)
  {
    var t := [sign] + d;
    assert t[0] == sign && t[1..] == d && t[|t| - 1] == d[|d| - 1];
    ParseSignedText(t);
    SignedGroup(t, n);
  }

  lemma UnsignedGroup(t: string, n: nat)
    requires t != [] && IsDigit(t[0]) && ParseDigitGroup(t) == Some(n)
    ensures ParseSigned(t) == Some(n as int)
  {
  }

  lemma SignedGroup(t: string, n: nat)
    requires |t| > 0 && (t[0] == '+' || t[0] == '-') && ParseDigitGroup(t[1..]) == Some(n)
    ensures ParseSigned(t) == Some(if t[0] == '-' then -(n as int) else n as int)
  {
  }

  /** A nonempty digit string within the limit is a digit group worth its digits. */
  lemma ParseDigits(d: string)
    requires d != [] && AllDigits(d) && |d| <= MaxStrDigits
    ensures ParseDigitGroup(d) == Some(DigitsValue(d))
  {
    DigitsHaveNoUnderscore(d);
    assert IsDigitGroup(d);
    assert RemoveUnderscores(d) == d;
  }

  /** Text that starts and ends with a digit needs no stripping. */
  lemma ParseUnsigned(d: string)
    requires d != [] && IsDigit(d[0]) && IsDigit(d[|d| - 1])
    ensures ParseInt(d) == ParseSigned(d)
  {
    StripUnpadded(d, IsIntSpace);
  }

  /** Text that starts with a sign and ends with a digit needs no stripping. */
  lemma ParseSignedText(t: string)
    requires |t| > 1 && (t[0] == '+' || t[0] == '-') && IsDigit(t[|t| - 1])
    ensures ParseInt(t) == ParseSigned(t)
  {
    StripUnpadded(t, IsIntSpace);
  }

  /**
   * What int() accepts has this shape once its whitespace is stripped: it
   * ends with a digit, and every character is a digit or '_', except that
   * the first may be a sign.
   */
  lemma ParseIntShape(text: string)
    requires ParseInt(text).Some?
    ensures var t := StripBy(text, IsIntSpace);
      t != [] && IsDigit(t[|t| - 1]) &&
      forall i :: 0 <= i < |t| ==> IsDigit(t[i]) || t[i] == '_' || (i == 0 && (t[i] == '+' || t[i] == '-'))
  {
    var t := StripBy(text, IsIntSpace);
    assert ParseInt(text) == ParseSigned(t);
    if t != [] && (t[0] == '-' || t[0] == '+') {
      var g := t[1..];
      assert IsDigitGroup(g);
      assert t[|t| - 1] == g[|g| - 1];
      forall i | 1 <= i < |t| ensures IsDigit(t[i]) || t[i] == '_' {
        assert t[i] == g[i - 1];
      }
    } else {
      assert IsDigitGroup(t);
    }
  }

  /** A single underscore between digits is accepted and ignored. */
  lemma ParseIntUnderscore()
    ensures ParseInt("1_000") == Some(1000)
  {
    var s := "1_000";
    ParseUnsigned(s);
    ThousandGroup();
    UnsignedGroup(s, 1000);
  }

  /** Two underscores in a row are rejected. */
  lemma ParseIntDoubleUnderscore()
    ensures ParseInt("1__0") == None
  {
    DoubleUnderscoreGroup();
    ParseUnsigned("1__0");
  }

  lemma DoubleUnderscoreGroup()
    ensures ParseDigitGroup("1__0") == None
  {
    var u := "1__0";
    assert u[1..][0] == '_' && u[1..][1] == '_';
    assert !NoDoubleUnderscore(u);
  }

  lemma ThousandGroup()
    ensures ParseDigitGroup("1_000") == Some(1000)
  {
    ThousandIsGroup();
    ThousandUnderscoreRemoved();
    ThousandValue();
  }

  lemma ThousandIsGroup()
    ensures IsDigitGroup("1_000")
  {
    var s := "1_000";
    assert s[1..][1..] == "000" && s[1..][0] == '_';
    assert NoDoubleUnderscore(s[1..][1..]);
  }

  lemma ThousandUnderscoreRemoved()
    ensures RemoveUnderscores("1_000") == "1000"
  {
    var s := "1_000";
    assert s[..4] == "1_00" && s[..4][..3] == "1_0" && s[..4][..3][..2] == "1_" && s[..4][..3][..2][..1] == "1";
    assert RemoveUnderscores("1") == "1";
    assert RemoveUnderscores("1_") == "1";
    assert RemoveUnderscores("1_0") == "10";
    assert RemoveUnderscores("1_00") == "100";
  }

  lemma ThousandValue()
    ensures AllDigits("1000") && DigitsValue("1000") == 1000
  {
    var d := "1000";
    assert d[..3] == "100" && d[..3][..2] == "10" && d[..3][..2][..1] == "1";
    assert DigitsValue("1") == 1;
    assert DigitsValue("10") == 10;
    assert DigitsValue("100") == 100;
  }
}
