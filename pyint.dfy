/**
 * Python's `int(s)` on a string, in base 10, and `str(n)` on an integer,
 * narrowed to ASCII. `int(s)` skips leading and trailing whitespace, takes an
 * optional `+` or `-`, then one or more decimal digits in which single
 * underscores may separate two digits; any other string raises `ValueError`,
 * which is `None` here.
 */
module PyInt {
  import opened Wrappers
  import opened PyStr

  /** ASCII whitespace as CPython's integer parser skips it: space, and tab through carriage return. */
  predicate IsSpace(c: char) {
    c == ' ' || '\t' <= c <= '\r'
  }

  /** `s` without its leading whitespace. */
  function TrimStart(s: string): (r: string)
    ensures |r| <= |s| && r == s[|s| - |r|..]
    ensures forall i :: 0 <= i < |s| - |r| ==> IsSpace(s[i])
    ensures r == [] || !IsSpace(r[0])
  {
    if s != [] && IsSpace(s[0]) then TrimStart(s[1..]) else s
  }

  /** `s` without its trailing whitespace. */
  function TrimEnd(s: string): (r: string)
    ensures |r| <= |s| && r == s[..|r|]
    ensures forall i :: |r| <= i < |s| ==> IsSpace(s[i])
    ensures r == [] || !IsSpace(r[|r| - 1])
  {
    if s != [] && IsSpace(s[|s| - 1]) then TrimEnd(s[..|s| - 1]) else s
  }

  function Strip(s: string): string {
    TrimEnd(TrimStart(s))
  }

  function DigitValue(c: char): (d: nat)
    requires IsAsciiDigit(c)
    ensures d < 10
  {
    c as int - '0' as int
  }

  function DigitChar(d: nat): (c: char)
    requires d < 10
    ensures IsAsciiDigit(c) && DigitValue(c) == d
  {
    ('0' as int + d) as char
  }

  /** The value of a string of decimal digits, most significant digit first. */
  function DigitsValue(ds: string): nat
    requires AllChars(ds, IsAsciiDigit)
  {
    if ds == [] then 0 else 10 * DigitsValue(ds[..|ds| - 1]) + DigitValue(ds[|ds| - 1])
  }

  /** The magnitude grammar of `int()`: a digit, then digits each optionally preceded by one `_`. */
  predicate IsDigitGroups(b: string) {
    && |b| > 0
    && IsAsciiDigit(b[0])
    && forall i :: 0 <= i < |b| ==> DigitOrSeparatorAt(b, i)
  }

  /** Position `i` of `b` holds a digit, or an underscore that a digit follows. */
  predicate DigitOrSeparatorAt(b: string, i: nat)
    requires i < |b|
  {
    IsAsciiDigit(b[i]) || (b[i] == '_' && i + 1 < |b| && IsAsciiDigit(b[i + 1]))
  }

  /** `b` with every underscore taken out. */
  function RemoveUnderscores(b: string): (r: string)
    ensures forall c :: c in r ==> c in b && c != '_'
    ensures '_' !in b ==> r == b
  {
    if b == [] then []
    else if b[0] == '_' then RemoveUnderscores(b[1..])
    else [b[0]] + RemoveUnderscores(b[1..])
  }

  function ParseMagnitude(b: string): Option<nat> {
    if IsDigitGroups(b) then
      DigitGroupsDigits(b);
      Some(DigitsValue(RemoveUnderscores(b)))
    else None
  }

  /**
   * `int(s)`: `Some(n)` for the integer it returns, `None` where it raises
   * `ValueError`. Whatever it accepts starts with a digit or a sign and ends
   * with a digit once whitespace is stripped.
   */
  function ParseInt(s: string): (r: Option<int>)
    ensures r.Some? ==> |Strip(s)| > 0 && IsAsciiDigit(Strip(s)[|Strip(s)| - 1])
    ensures r.Some? ==> IsAsciiDigit(Strip(s)[0]) || Strip(s)[0] == '+' || Strip(s)[0] == '-'
  {
    AcceptedShape(Strip(s));
    ParseStripped(Strip(s))
  }

  /** What `int()` makes of the text once surrounding whitespace is skipped: an optional sign, then a magnitude. */
  function ParseStripped(t: string): Option<int> {
    if |t| > 0 && (t[0] == '+' || t[0] == '-') then
      ApplySign(t[0], ParseMagnitude(t[1..]))
    else
      ParseMagnitude(t)
  }

  /** A magnitude read after a sign: negated after `-`, kept after `+`. */
  function ApplySign(sign: char, m: Option<nat>): Option<int> {
    match m
    case None => None
    case Some(k) => Some(if sign == '-' then -(k as int) else k)
  }

  /** `str(n)` for a non-negative `n`: its decimal digits without leading zeros. */
  function ShowNat(n: nat): (s: string)
    ensures |s| > 0 && AllChars(s, IsAsciiDigit)
    ensures DigitsValue(s) == n
    ensures s[0] == '0' ==> s == "0"
  {
    if n < 10 then [DigitChar(n)]
    else
      var s := ShowNat(n / 10) + [DigitChar(n % 10)];
      assert s[..|s| - 1] == ShowNat(n / 10);
      s
  }

  /** `str(n)`: a minus sign for a negative `n`, then the digits of its magnitude. */
  function Show(n: int): (s: string)
    ensures |s| > 0 && (s[0] == '-' <==> n < 0)
    ensures n >= 0 ==> IsDigit(s) && (s[0] == '0' ==> s == "0")
    ensures n < 0 ==> |s| > 1 && IsDigit(s[1..]) && s[1] != '0'
  {
    if n < 0 then
      var m := ShowNat(-n);
      assert DigitsValue(m) > 0;
      "-" + m
    else ShowNat(n)
  }

  /** Accepted text ends in a digit, since a final underscore has no digit after it, and starts with a digit or a sign. */
  lemma AcceptedShape(t: string)
    ensures ParseStripped(t).Some? ==> |t| > 0 && IsAsciiDigit(t[|t| - 1])
    ensures ParseStripped(t).Some? ==> IsAsciiDigit(t[0]) || t[0] == '+' || t[0] == '-'
  {
    if |t| > 0 && (t[0] == '+' || t[0] == '-') {
      var b := t[1..];
      if IsDigitGroups(b) {
        assert DigitOrSeparatorAt(b, |b| - 1);
        assert t[|t| - 1] == b[|b| - 1];
      }
    } else if IsDigitGroups(t) {
      assert DigitOrSeparatorAt(t, |t| - 1);
    }
  }

  lemma {:induction false} RemoveUnderscoresAppend(x: string, y: string)
    ensures RemoveUnderscores(x + y) == RemoveUnderscores(x) + RemoveUnderscores(y)
  {
    if x != [] {
      var xy := x + y;
      assert xy[0] == x[0] && xy[1..] == x[1..] + y;
      RemoveUnderscoresAppend(x[1..], y);
      if x[0] != '_' {
        assert RemoveUnderscores(xy) == [x[0]] + RemoveUnderscores(x[1..] + y);
        assert RemoveUnderscores(x) == [x[0]] + RemoveUnderscores(x[1..]);
      }
    } else {
      assert x + y == y;
    }
  }

  /** Once its separators are taken out, a well-formed magnitude is all digits. */
  lemma DigitGroupsDigits(b: string)
    requires IsDigitGroups(b)
    ensures AllChars(RemoveUnderscores(b), IsAsciiDigit)
  {
    var r := RemoveUnderscores(b);
    forall i | 0 <= i < |r| ensures IsAsciiDigit(r[i]) {
      assert r[i] in r;
      var j :| 0 <= j < |b| && b[j] == r[i];
      assert DigitOrSeparatorAt(b, j);
    }
  }

  /** A string with no whitespace at either end is its own strip. */
  lemma StripUnpadded(s: string)
    requires s != [] && !IsSpace(s[0]) && !IsSpace(s[|s| - 1])
    ensures Strip(s) == s
  {
  }

  /** A signed or unsigned string of one or more digits reads as the number those digits denote, with that sign. */
  lemma ParseIntOfDigits(sign: string, ds: string)
    requires sign == "" || sign == "+" || sign == "-"
    requires IsDigit(ds)
    ensures ParseInt(sign + ds) == Some(SignedValue(sign, ds))
  {
    var t := sign + ds;
    assert t[|t| - 1] == ds[|ds| - 1];
    assert t[0] == if sign == "" then ds[0] else sign[0];
    StripUnpadded(t);
    assert ParseInt(t) == ParseStripped(t);
    StrippedDigits(sign, ds);
  }

  lemma StrippedDigits(sign: string, ds: string)
    requires sign == "" || sign == "+" || sign == "-"
    requires IsDigit(ds)
    ensures ParseStripped(sign + ds) == Some(SignedValue(sign, ds))
  {
    if sign == "" {
      UnsignedStripped(ds);
      assert sign + ds == ds;
    } else {
      SignedStrippedDigits(sign, ds);
    }
  }

  lemma UnsignedStripped(ds: string)
    requires IsDigit(ds)
    ensures ParseStripped(ds) == Some(SignedValue("", ds))
  {
    MagnitudeOfDigits(ds);
    assert IsAsciiDigit(ds[0]);
  }

  lemma SignedStrippedDigits(sign: string, ds: string)
    requires sign == "+" || sign == "-"
    requires IsDigit(ds)
    ensures ParseStripped(sign + ds) == Some(SignedValue(sign, ds))
  {
    MagnitudeOfDigits(ds);
    SignedStripped(sign, ds);
    assert sign == "-" <==> sign[0] == '-';
  }

  lemma SignedStripped(sign: string, b: string)
    requires sign == "+" || sign == "-"
    ensures ParseStripped(sign + b) == ApplySign(sign[0], ParseMagnitude(b))
  {
    assert (sign + b)[0] == sign[0] && (sign + b)[1..] == b;
  }

  lemma MagnitudeOfDigits(ds: string)
    requires IsDigit(ds)
    ensures ParseMagnitude(ds) == Some(DigitsValue(ds))
  {
    assert '_' !in ds;
    assert IsDigitGroups(ds);
  }

  lemma {:induction false} TrimStartPadded(ws: string, x: string)
    requires AllChars(ws, IsSpace)
    ensures TrimStart(ws + x) == TrimStart(x)
  {
    if ws == [] {
      assert ws + x == x;
    } else {
      assert (ws + x)[1..] == ws[1..] + x;
      TrimStartPadded(ws[1..], x);
    }
  }

  lemma {:induction false} TrimEndPadded(x: string, ws: string)
    requires AllChars(ws, IsSpace)
    ensures TrimEnd(x + ws) == TrimEnd(x)
  {
    if ws == [] {
      assert x + ws == x;
    } else {
      var xs := x + ws;
      assert xs[..|xs| - 1] == x + ws[..|ws| - 1];
      TrimEndPadded(x, ws[..|ws| - 1]);
    }
  }

  lemma {:induction false} TrimStartAppend(x: string, y: string)
    requires TrimStart(x) != []
    ensures TrimStart(x + y) == TrimStart(x) + y
  {
    assert (x + y)[0] == x[0];
    if IsSpace(x[0]) {
      assert (x + y)[1..] == x[1..] + y;
      TrimStartAppend(x[1..], y);
      assert TrimStart(x + y) == TrimStart(x[1..] + y);
    } else {
      assert TrimStart(x + y) == x + y;
    }
  }

  /** Whitespace around the text does not change what `int()` makes of it. */
  lemma ParseIntPadded(ws: string, s: string, ws': string)
    requires AllChars(ws, IsSpace) && AllChars(ws', IsSpace)
    ensures ParseInt(ws + s + ws') == ParseInt(s)
  {
    StripPadded(ws, s, ws');
  }

  lemma StripPadded(ws: string, s: string, ws': string)
    requires AllChars(ws, IsSpace) && AllChars(ws', IsSpace)
    ensures Strip(ws + s + ws') == Strip(s)
  {
    LeadingSpacesTrimmed(ws, s, ws');
    TrailingSpacesTrimmed(s, ws');
  }

  lemma LeadingSpacesTrimmed(ws: string, s: string, ws': string)
    requires AllChars(ws, IsSpace)
    ensures TrimStart(ws + s + ws') == TrimStart(s + ws')
  {
    var x := s + ws';
    AppendAssociates(ws, s, ws');
    TrimStartPadded(ws, x);
  }

  lemma AppendAssociates(x: string, y: string, z: string)
    ensures x + y + z == x + (y + z)
  {
  }

  lemma TrailingSpacesTrimmed(s: string, ws: string)
    requires AllChars(ws, IsSpace)
    ensures TrimEnd(TrimStart(s + ws)) == TrimEnd(TrimStart(s))
  {
    var r := TrimStart(s);
    if r != [] {
      TrimStartAppend(s, ws);
      TrimEndPadded(r, ws);
    } else {
      SpacesTrimmedAway(s, ws);
    }
  }

  /** Text that is all whitespace, followed by more whitespace, trims to nothing. */
  lemma SpacesTrimmedAway(s: string, ws: string)
    requires TrimStart(s) == [] && AllChars(ws, IsSpace)
    ensures TrimStart(s + ws) == []
  {
    assert AllChars(s, IsSpace);
    TrimStartPadded(s, ws);
    TrimStartPadded(ws, []);
    assert ws + [] == ws;
  }

  /**
   * Once whitespace is stripped, a character that is neither a digit, an
   * underscore nor a leading sign makes `int()` raise `ValueError`.
   */
  lemma ParseIntRejectsOtherChars(s: string, i: nat)
    requires i < |Strip(s)|
    requires !IsAsciiDigit(Strip(s)[i]) && Strip(s)[i] != '_'
    requires i == 0 ==> Strip(s)[0] != '+' && Strip(s)[0] != '-'
    ensures ParseInt(s) == None
  {
    var t := Strip(s);
    if t[0] == '+' || t[0] == '-' {
      assert !DigitOrSeparatorAt(t[1..], i - 1);
    } else {
      assert !DigitOrSeparatorAt(t, i);
    }
  }

  /** Where `Strip(s)` starts in `s`. */
  function StripOffset(s: string): nat
  {
    |s| - |TrimStart(s)|
  }

  /** `Strip(s)` is the slice of `s` that starts at `StripOffset(s)`, with only whitespace around it. */
  lemma StripSlice(s: string)
    ensures StripOffset(s) + |Strip(s)| <= |s|
    ensures Strip(s) == s[StripOffset(s)..StripOffset(s) + |Strip(s)|]
    ensures forall k :: 0 <= k < StripOffset(s) ==> IsSpace(s[k])
    ensures forall k :: StripOffset(s) + |Strip(s)| <= k < |s| ==> IsSpace(s[k])
  {
    StripSliceContents(s);
    StripSliceSurroundings(s);
  }

  lemma StripSliceContents(s: string)
    ensures StripOffset(s) + |Strip(s)| <= |s|
    ensures Strip(s) == s[StripOffset(s)..StripOffset(s) + |Strip(s)|]
  {
    var r := TrimStart(s);
    SliceOfSuffix(s, r, TrimEnd(r), StripOffset(s));
  }

  /** A prefix `t` of the suffix `r` of `s` that starts at `a` is the slice of `s` from `a`. */
  lemma SliceOfSuffix(s: string, r: string, t: string, a: nat)
    requires a <= |s| && r == s[a..]
    requires |t| <= |r| && t == r[..|t|]
    ensures a + |t| <= |s| && t == s[a..a + |t|]
  {
  }

  lemma StripSliceSurroundings(s: string)
    ensures forall k :: 0 <= k < StripOffset(s) ==> IsSpace(s[k])
    ensures forall k :: StripOffset(s) + |Strip(s)| <= k < |s| ==> IsSpace(s[k])
  {
    TrailingSurroundings(s, TrimStart(s), StripOffset(s));
  }

  lemma TrailingSurroundings(s: string, r: string, a: nat)
    requires a <= |s| && r == s[a..]
    ensures forall k :: a + |TrimEnd(r)| <= k < |s| ==> IsSpace(s[k])
  {
    forall k | a + |TrimEnd(r)| <= k < |s| ensures IsSpace(s[k]) {
      assert s[k] == r[k - a];
    }
  }

  /** A character that is not whitespace survives stripping, at its place in the slice. */
  lemma NonSpaceKept(s: string, i: nat)
    requires i < |s| && !IsSpace(s[i])
    ensures StripOffset(s) <= i < StripOffset(s) + |Strip(s)|
    ensures Strip(s)[i - StripOffset(s)] == s[i]
  {
    StripSlice(s);
  }

  /** Every character inside the stripped slice is where `StripOffset` puts it. */
  lemma StripIndex(s: string, k: nat)
    requires StripOffset(s) <= k < StripOffset(s) + |Strip(s)|
    ensures k < |s| && Strip(s)[k - StripOffset(s)] == s[k]
  {
    StripSlice(s);
  }

  /** After stripping: an underscore with no digit before it makes the text unreadable. */
  lemma StrippedUnderscoreNeedsDigitBefore(t: string, j: nat)
    requires j < |t| && t[j] == '_'
    requires !(0 < j && IsAsciiDigit(t[j - 1]))
    ensures ParseStripped(t) == None
  {
    if t[0] == '+' || t[0] == '-' {
      var b := t[1..];
      if j >= 2 {
        assert b[j - 2] == t[j - 1] && b[j - 1] == t[j];
        assert !DigitOrSeparatorAt(b, j - 2);
      } else {
        assert b[0] == t[1];
      }
    } else if j > 0 {
      assert !DigitOrSeparatorAt(t, j - 1);
    }
  }

  /** After stripping: an underscore with no digit after it makes the text unreadable. */
  lemma StrippedUnderscoreNeedsDigitAfter(t: string, j: nat)
    requires j < |t| && t[j] == '_'
    requires !(j + 1 < |t| && IsAsciiDigit(t[j + 1]))
    ensures ParseStripped(t) == None
  {
    if t[0] == '+' || t[0] == '-' {
      var b := t[1..];
      assert b[j - 1] == t[j];
      if j < |b| {
        assert b[j] == t[j + 1];
      }
      assert !DigitOrSeparatorAt(b, j - 1);
    } else {
      assert !DigitOrSeparatorAt(t, j);
    }
  }

  /** After stripping: a sign with no digit after it makes the text unreadable. */
  lemma StrippedSignNeedsDigitAfter(t: string, j: nat)
    requires j < |t| && (t[j] == '+' || t[j] == '-')
    requires !(j + 1 < |t| && IsAsciiDigit(t[j + 1]))
    ensures ParseStripped(t) == None
  {
    if t[0] == '+' || t[0] == '-' {
      var b := t[1..];
      if j > 0 {
        assert b[j - 1] == t[j];
        assert !DigitOrSeparatorAt(b, j - 1);
      } else if b != [] {
        assert b[0] == t[1];
      }
    } else {
      assert !DigitOrSeparatorAt(t, j);
    }
  }

  /** An underscore counts only after a digit: after nothing, a sign or an underscore, `int()` raises. */
  lemma UnderscoreNeedsDigitBefore(s: string, i: nat)
    requires i < |s| && s[i] == '_'
    requires !(0 < i && IsAsciiDigit(s[i - 1]))
    ensures ParseInt(s) == None
  {
    NonSpaceKept(s, i);
    var t, j := Strip(s), i - StripOffset(s);
    if j > 0 {
      StripIndex(s, i - 1);
    }
    StrippedUnderscoreNeedsDigitBefore(t, j);
  }

  /** An underscore counts only before a digit: at the end or before anything else, `int()` raises. */
  lemma UnderscoreNeedsDigitAfter(s: string, i: nat)
    requires i < |s| && s[i] == '_'
    requires !(i + 1 < |s| && IsAsciiDigit(s[i + 1]))
    ensures ParseInt(s) == None
  {
    NonSpaceKept(s, i);
    var t, j := Strip(s), i - StripOffset(s);
    if j + 1 < |t| {
      StripIndex(s, i + 1);
    }
    StrippedUnderscoreNeedsDigitAfter(t, j);
  }

  /** A sign counts only right before a digit: before anything else, or at the end, `int()` raises. */
  lemma SignNeedsDigitAfter(s: string, i: nat)
    requires i < |s| && (s[i] == '+' || s[i] == '-')
    requires !(i + 1 < |s| && IsAsciiDigit(s[i + 1]))
    ensures ParseInt(s) == None
  {
    NonSpaceKept(s, i);
    var t, j := Strip(s), i - StripOffset(s);
    if j + 1 < |t| {
      StripIndex(s, i + 1);
    }
    StrippedSignNeedsDigitAfter(t, j);
  }

  /** A character that is not whitespace, a digit, an underscore or a sign makes `int()` raise, wherever it is. */
  lemma ForeignCharRejected(s: string, i: nat)
    requires i < |s| && !IsSpace(s[i]) && !IsAsciiDigit(s[i])
    requires s[i] != '_' && s[i] != '+' && s[i] != '-'
    ensures ParseInt(s) == None
  {
    NonSpaceKept(s, i);
    ParseIntRejectsOtherChars(s, i - StripOffset(s));
  }

  /** Doubled, leading and trailing underscores make `int()` raise, whatever surrounds them. */
  lemma MisplacedUnderscores(x: string, y: string)
    ensures ParseInt(x + "__" + y) == None
    ensures ParseInt("_" + y) == None
    ensures ParseInt("+_" + y) == None && ParseInt("-_" + y) == None
    ensures ParseInt(x + "_") == None
  {
    var doubled := x + "__" + y;
    UnderscoreNeedsDigitAfter(doubled, |x|);
    UnderscoreNeedsDigitBefore("_" + y, 0);
    UnderscoreNeedsDigitBefore("+_" + y, 1);
    UnderscoreNeedsDigitBefore("-_" + y, 1);
    UnderscoreNeedsDigitAfter(x + "_", |x|);
  }

  /** A lone sign, like the empty string, makes `int()` raise. */
  lemma LoneSign(sign: char)
    requires sign == '+' || sign == '-'
    ensures ParseInt([sign]) == None
    ensures ParseInt([]) == None
  {
    SignNeedsDigitAfter([sign], 0);
    assert Strip([]) == [];
  }

  /** A sign separated from its digits by whitespace makes `int()` raise. */
  lemma SpaceAfterSign(sign: char, ws: string, y: string)
    requires sign == '+' || sign == '-'
    requires |ws| > 0 && AllChars(ws, IsSpace)
    ensures ParseInt([sign] + ws + y) == None
  {
    var spaced := [sign] + ws + y;
    assert spaced[1] == ws[0];
    assert IsSpace(ws[0]);
    assert !IsAsciiDigit(spaced[1]);
    SignNeedsDigitAfter(spaced, 0);
  }

  /** Two signs in a row make `int()` raise. */
  lemma DoubledSign(sign: char, sign': char, y: string)
    requires sign == '+' || sign == '-'
    requires sign' == '+' || sign' == '-'
    ensures ParseInt([sign, sign'] + y) == None
  {
    var signed := [sign, sign'] + y;
    assert signed[1] == sign';
    SignNeedsDigitAfter(signed, 0);
  }

  /**
   * Exactly the texts that are, once stripped, digit groups with or without a
   * sign in front are accepted; `ParseIntOfGroups` gives their values.
   */
  lemma AcceptedForms(s: string)
    ensures ParseInt(s).Some? <==> AcceptedStripped(Strip(s))
  {
    StrippedForms(Strip(s));
  }

  predicate AcceptedStripped(t: string) {
    || IsDigitGroups(t)
    || (|t| > 0 && (t[0] == '+' || t[0] == '-') && IsDigitGroups(t[1..]))
  }

  lemma StrippedForms(t: string)
    ensures ParseStripped(t).Some? <==> AcceptedStripped(t)
  {
  }

  /**
   * The value of any accepted text: an optional sign, then digit groups, reads
   * as the sign and the digits left once the separators are taken out.
   */
  lemma ParseIntOfGroups(sign: string, b: string)
    requires sign == "" || sign == "+" || sign == "-"
    requires IsDigitGroups(b)
    ensures IsDigit(RemoveUnderscores(b))
    ensures ParseInt(sign + b) == ParseInt(sign + RemoveUnderscores(b))
    ensures ParseInt(sign + b) == Some(SignedValue(sign, RemoveUnderscores(b)))
  {
    var d := RemoveUnderscores(b);
    GroupsMagnitude(b);
    assert IsAsciiDigit(d[0]) && IsAsciiDigit(d[|d| - 1]);
    SameMagnitude(sign, b, d);
    ParseIntOfDigits(sign, d);
  }

  /** The number that a sign, empty or not, and a string of digits denote. */
  function SignedValue(sign: string, d: string): int
    requires AllChars(d, IsAsciiDigit)
  {
    if sign == "-" then -(DigitsValue(d) as int) else DigitsValue(d)
  }

  /** Digit groups read as the digits left once their separators are taken out. */
  lemma GroupsMagnitude(b: string)
    requires IsDigitGroups(b)
    ensures IsAsciiDigit(b[|b| - 1])
    ensures IsDigit(RemoveUnderscores(b))
    ensures ParseMagnitude(b) == ParseMagnitude(RemoveUnderscores(b))
  {
    var d := RemoveUnderscores(b);
    DigitGroupsDigits(b);
    assert d == [b[0]] + RemoveUnderscores(b[1..]);
    MagnitudeOfDigits(d);
    assert DigitOrSeparatorAt(b, |b| - 1);
  }

  /** Two magnitudes that read alike read alike behind the same sign. */
  lemma SameMagnitude(sign: string, b: string, d: string)
    requires sign == "" || sign == "+" || sign == "-"
    requires |b| > 0 && IsAsciiDigit(b[0]) && IsAsciiDigit(b[|b| - 1])
    requires |d| > 0 && IsAsciiDigit(d[0]) && IsAsciiDigit(d[|d| - 1])
    requires ParseMagnitude(b) == ParseMagnitude(d)
    ensures ParseInt(sign + b) == ParseInt(sign + d)
  {
    if sign == "" {
      assert sign + b == b && sign + d == d;
      UnsignedMagnitude(b);
      UnsignedMagnitude(d);
    } else {
      var c := sign[0];
      assert sign == [c];
      SignedText(c, b);
      SignedText(c, d);
    }
  }

  lemma UnsignedMagnitude(b: string)
    requires |b| > 0 && IsAsciiDigit(b[0]) && IsAsciiDigit(b[|b| - 1])
    ensures ParseInt(b) == ParseMagnitude(b)
  {
    StripUnpadded(b);
    assert ParseInt(b) == ParseStripped(b);
  }

  lemma SignedText(c: char, b: string)
    requires c == '+' || c == '-'
    requires |b| > 0 && IsAsciiDigit(b[|b| - 1])
    ensures ParseInt([c] + b) == ApplySign(c, ParseMagnitude(b))
  {
    var t := [c] + b;
    assert t[|t| - 1] == b[|b| - 1];
    assert t[0] == c;
    StripUnpadded(t);
    assert t[1..] == b;
  }

  /**
   * A single underscore between two runs of digit groups is a separator: with
   * or without a sign, the text reads as it does without that underscore.
   */
  lemma UnderscoreBetweenDigits(sign: string, x: string, y: string)
    requires sign == "" || sign == "+" || sign == "-"
    requires IsDigitGroups(x) && IsDigitGroups(y)
    ensures ParseInt(sign + x + "_" + y) == ParseInt(sign + x + y)
    ensures ParseInt(sign + x + y).Some?
  {
    var b, xy := x + "_" + y, x + y;
    GroupsJoined(x, y);
    SeparatorRemoved(x, y);
    assert sign + x + "_" + y == sign + b;
    assert sign + x + y == sign + xy;
    ParseIntOfGroups(sign, b);
    ParseIntOfGroups(sign, xy);
  }

  lemma GroupsJoined(x: string, y: string)
    requires IsDigitGroups(x) && IsDigitGroups(y)
    ensures IsDigitGroups(x + "_" + y) && IsDigitGroups(x + y)
  {
    var b, xy := x + "_" + y, x + y;
    forall i | 0 <= i < |b| ensures DigitOrSeparatorAt(b, i) {
      if i < |x| {
        assert b[i] == x[i] && DigitOrSeparatorAt(x, i);
        if i + 1 < |x| {
          assert b[i + 1] == x[i + 1];
        }
      } else if i == |x| {
        assert b[i + 1] == y[0];
      } else {
        assert b[i] == y[i - |x| - 1] && DigitOrSeparatorAt(y, i - |x| - 1);
        if i + 1 < |b| {
          assert b[i + 1] == y[i - |x|];
        }
      }
    }
    forall i | 0 <= i < |xy| ensures DigitOrSeparatorAt(xy, i) {
      if i < |x| {
        assert xy[i] == x[i] && DigitOrSeparatorAt(x, i);
        if i + 1 < |x| {
          assert xy[i + 1] == x[i + 1];
        }
      } else {
        assert xy[i] == y[i - |x|] && DigitOrSeparatorAt(y, i - |x|);
        if i + 1 < |xy| {
          assert xy[i + 1] == y[i + 1 - |x|];
        }
      }
    }
  }

  lemma SeparatorRemoved(x: string, y: string)
    ensures RemoveUnderscores(x + "_" + y) == RemoveUnderscores(x + y)
  {
    assert RemoveUnderscores("_") == [] by {
      assert "_"[1..] == [];
    }
    RemoveUnderscoresAppend(x, "_");
    assert RemoveUnderscores(x + "_") == RemoveUnderscores(x);
    RemoveUnderscoresAppend(x + "_", y);
    RemoveUnderscoresAppend(x, y);
  }

  /** `int(str(n)) == n` for every integer `n`. */
  lemma ParseIntOfShow(n: int)
    ensures ParseInt(Show(n)) == Some(n)
  {
    if n < 0 {
      ParseIntOfDigits("-", ShowNat(-n));
    } else {
      ParseIntOfDigits("", ShowNat(n));
      assert "" + ShowNat(n) == ShowNat(n);
    }
  }
}
