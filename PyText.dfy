/** The Python text builtins the scraper relies on, over `seq<char>`:
    `str.replace`, `str.strip()`, `str(n)` for integers and `int(s)` in base 10.
    `int(s)` is modelled for ASCII digits only (see README). */
module PyText {
  import opened Wrappers

  /** `str.isspace()`: the characters `str.strip()` removes. */
  predicate IsSpace(c: char) {
    || c == ' '
    || '\t' <= c <= '\r'
    || '\U{1c}' <= c <= '\U{1f}'
    || c == '\U{85}' || c == '\U{a0}' || c == '\U{1680}'
    || '\U{2000}' <= c <= '\U{200a}'
    || c == '\U{2028}' || c == '\U{2029}' || c == '\U{202f}' || c == '\U{205f}' || c == '\U{3000}'
  }

  /** Which whitespace a trim removes: `str.strip()` removes every
      `str.isspace()` character; `int()` skips them too except U+001C to
      U+001F, because CPython tests the ASCII characters of an `int()` argument
      with the C-level `isspace`, which knows only " \t\n\v\f\r". */
  datatype Spaces = StrSpaces | IntSpaces

  predicate Skips(k: Spaces, c: char) {
    IsSpace(c) && (k == StrSpaces || !('\U{1c}' <= c <= '\U{1f}'))
  }

  predicate IsDigit(c: char) {
    '0' <= c <= '9'
  }

  predicate AllDigits(s: string) {
    forall i :: 0 <= i < |s| ==> IsDigit(s[i])
  }

  predicate AllSpaces(k: Spaces, s: string) {
    forall i :: 0 <= i < |s| ==> Skips(k, s[i])
  }

  function DigitValue(c: char): (d: nat)
    requires IsDigit(c)
    ensures d < 10
  {
    c as int - '0' as int
  }

  function DigitChar(d: nat): (c: char)
    requires d < 10
    ensures IsDigit(c) && DigitValue(c) == d
  {
    ('0' as int + d) as char
  }

  /** The value of a string of decimal digits, most significant first. */
  function DigitsValue(s: string): nat
    requires AllDigits(s)
  {
    if |s| == 0 then 0 else 10 * DigitsValue(s[..|s| - 1]) + DigitValue(s[|s| - 1])
  }

  /** `s` with every occurrence of the character `c` deleted: the reference
      meaning of `s.replace(c, "")`. */
  function Remove(s: string, c: char): (r: string)
    ensures |r| <= |s|
  {
    if |s| == 0 then [] else (if s[0] == c then [] else [s[0]]) + Remove(s[1..], c)
  }

  /** `s.replace(pat, rep)`: occurrences of `pat` found scanning left to right,
      never overlapping, each replaced by `rep`. */
  function Replace(s: string, pat: string, rep: string): (r: string)
    requires |pat| > 0
    ensures |rep| <= |pat| ==> |r| <= |s|
    decreases |s|
  {
    if |s| < |pat| then s
    else if s[..|pat|] == pat then rep + Replace(s[|pat|..], pat, rep)
    else [s[0]] + Replace(s[1..], pat, rep)
  }

  /** The number of whitespace characters `s` starts with. */
  function LeadingSpaces(k: Spaces, s: string): (n: nat)
    ensures n <= |s|
  {
    if |s| > 0 && Skips(k, s[0]) then LeadingSpaces(k, s[1..]) + 1 else 0
  }

  /** The number of whitespace characters `s` ends with. */
  function TrailingSpaces(k: Spaces, s: string): (n: nat)
    ensures n <= |s|
  {
    if |s| > 0 && Skips(k, s[|s| - 1]) then TrailingSpaces(k, s[..|s| - 1]) + 1 else 0
  }

  /** Leading whitespace removed (`str.lstrip()` for `StrSpaces`). */
  function TrimStart(k: Spaces, s: string): string {
    s[LeadingSpaces(k, s)..]
  }

  /** Trailing whitespace removed (`str.rstrip()` for `StrSpaces`). */
  function TrimEnd(k: Spaces, s: string): string {
    s[..|s| - TrailingSpaces(k, s)]
  }

  /** Whitespace of kind `k` removed at both ends. */
  function Trim(k: Spaces, s: string): string {
    TrimEnd(k, TrimStart(k, s))
  }

  /** `str.strip()` with no argument: what is left neither starts nor ends
      with whitespace. */
  function Strip(s: string): (r: string)
    ensures |r| <= |s|
    ensures |r| == 0 || (!IsSpace(r[0]) && !IsSpace(r[|r| - 1]))
  {
    LeadingSpacesMeaning(StrSpaces, s);
    TrailingSpacesMeaning(StrSpaces, TrimStart(StrSpaces, s));
    Trim(StrSpaces, s)
  }

  /** The body of a base-10 literal as `int()` accepts it: ASCII digits, with
      single underscores allowed between two digits. */
  predicate IsDigitBody(t: string) {
    && |t| > 0
    && IsDigit(t[0])
    && IsDigit(t[|t| - 1])
    && (forall i :: 0 <= i < |t| ==> IsDigit(t[i]) || t[i] == '_')
    && (forall i :: 0 <= i < |t| - 1 ==> t[i] == '_' ==> t[i + 1] != '_')
  }

  /** Scans a literal body from its last digit backwards, skipping one
      underscore before each earlier digit; `None` where `int()` raises. */
  function ParseDigits(t: string): Option<nat>
    decreases |t|
  {
    if |t| == 0 || !IsDigit(t[|t| - 1]) then None
    else if |t| == 1 then Some(DigitValue(t[0]))
    else
      var init := t[..|t| - 1];
      var head := if init[|init| - 1] == '_' then init[..|init| - 1] else init;
      match ParseDigits(head)
      case None => None
      case Some(v) => Some(10 * v + DigitValue(t[|t| - 1]))
  }

  /** `int()` on a text already stripped: an optional sign, then a digit body. */
  function ParseSigned(t: string): Option<int> {
    if |t| > 0 && (t[0] == '+' || t[0] == '-') then
      match ParseDigits(t[1..])
      case None => None
      case Some(v) =>
        var value: int := if t[0] == '-' then -(v as int) else v;
        Some(value)
    else
      match ParseDigits(t)
      case None => None
      case Some(v) => Some(v)
  }

  /** `int(s)`: surrounding whitespace it skips, an optional sign, then a digit body;
      `None` where Python raises `ValueError`. */
  function ParseInt(s: string): Option<int> {
    ParseSigned(Trim(IntSpaces, s))
  }

  /** `str(n)` for `n >= 0`. */
  function NatToString(n: nat): (r: string)
    ensures |r| > 0 && AllDigits(r)
    ensures DigitsValue(r) == n
  {
    if n < 10 then [DigitChar(n)]
    else
      var r := NatToString(n / 10) + [DigitChar(n % 10)];
      assert r[..|r| - 1] == NatToString(n / 10);
      r
  }

  /** `str(n)`. */
  function IntToString(n: int): string {
    if n < 0 then "-" + NatToString(-n) else NatToString(n)
  }

  // ---------------------------------------------------------------------------
  // Remove and Replace

  lemma {:induction false} RemoveAppend(a: string, b: string, c: char)
    ensures Remove(a + b, c) == Remove(a, c) + Remove(b, c)
  {
    if |a| > 0 {
      assert (a + b)[1..] == a[1..] + b;
      RemoveAppend(a[1..], b, c);
    } else {
      assert a + b == b;
    }
  }

  lemma {:induction false} RemoveUnderscoresOfBody(s: string)
    requires forall i :: 0 <= i < |s| ==> IsDigit(s[i]) || s[i] == '_'
    ensures AllDigits(Remove(s, '_'))
  {
    if |s| > 0 {
      RemoveUnderscoresOfBody(s[1..]);
    }
  }

  /** Deleting `c` keeps every other character... */
  lemma {:induction false} RemoveKeeps(s: string, c: char, i: int)
    requires 0 <= i < |s| && s[i] != c
    ensures s[i] in Remove(s, c)
  {
    if i > 0 {
      assert s[1..][i - 1] == s[i];
      RemoveKeeps(s[1..], c, i - 1);
    }
  }

  /** ... and adds none. */
  lemma {:induction false} RemoveFrom(s: string, c: char, i: int)
    requires 0 <= i < |Remove(s, c)|
    ensures Remove(s, c)[i] in s && Remove(s, c)[i] != c
  {
    if s[0] == c {
      RemoveFrom(s[1..], c, i);
    } else if i > 0 {
      RemoveFrom(s[1..], c, i - 1);
    }
  }

  lemma {:induction false} RemoveAbsent(s: string, c: char)
    requires forall i :: 0 <= i < |s| ==> s[i] != c
    ensures Remove(s, c) == s
  {
    if |s| > 0 {
      RemoveAbsent(s[1..], c);
    }
  }

  /** Replacing a one-character pattern by nothing deletes that character. */
  lemma {:induction false} ReplaceCharIsRemove(s: string, c: char)
    ensures Replace(s, [c], "") == Remove(s, c)
  {
    if |s| > 0 {
      ReplaceCharIsRemove(s[1..], c);
      if s[0] == c {
        assert s[..1] == [c];
      } else {
        assert s[..1] != [c];
      }
    }
  }

  /** A prefix in which the pattern's first character never occurs is copied
      unchanged, and the scan resumes on what follows it. */
  lemma {:induction false} ReplaceSkip(a: string, b: string, pat: string, rep: string)
    requires |pat| > 0
    requires forall i :: 0 <= i < |a| ==> a[i] != pat[0]
    ensures Replace(a + b, pat, rep) == a + Replace(b, pat, rep)
  {
    if |a| > 0 {
      var s := a + b;
      assert s[1..] == a[1..] + b;
      ReplaceSkip(a[1..], b, pat, rep);
      if |s| >= |pat| {
        assert s[..|pat|][0] == a[0] != pat[0];
      } else {
        assert |b| < |pat|;
        assert Replace(b, pat, rep) == b;
        assert Replace(a[1..] + b, pat, rep) == a[1..] + b;
      }
    } else {
      assert a + b == b;
    }
  }

  /** Deleting a pattern never deletes a character the pattern lacks. */
  lemma {:induction false} ReplaceKeeps(s: string, pat: string, i: int)
    requires |pat| > 0 && 0 <= i < |s| && s[i] !in pat
    ensures s[i] in Replace(s, pat, "")
    decreases |s|
  {
    if |s| >= |pat| && s[..|pat|] == pat {
      assert i >= |pat|;
      assert s[|pat|..][i - |pat|] == s[i];
      ReplaceKeeps(s[|pat|..], pat, i - |pat|);
    } else if |s| >= |pat| && i > 0 {
      assert s[1..][i - 1] == s[i];
      ReplaceKeeps(s[1..], pat, i - 1);
    }
  }

  lemma ReplaceWhole(pat: string, rep: string)
    requires |pat| > 0
    ensures Replace(pat, pat, rep) == rep
  {
    assert pat[..|pat|] == pat;
    assert Replace(pat[|pat|..], pat, rep) == [];
  }

  // ---------------------------------------------------------------------------
  // Strip

  /** A space followed by `m` spaces is `m + 1` spaces. */
  lemma SpacesCons(k: Spaces, s: string, m: nat)
    requires 0 < |s| && Skips(k, s[0]) && m < |s| && AllSpaces(k, s[1..][..m])
    ensures AllSpaces(k, s[..m + 1])
  {
    forall i | 0 < i <= m
      ensures Skips(k, s[i])
    {
      assert s[i] == s[1..][..m][i - 1];
    }
    assert forall i :: 0 <= i <= m ==> s[..m + 1][i] == s[i];
  }

  /** Trimming the front removes whitespace only, and all of the leading
      whitespace. */
  lemma {:induction false} LeadingSpacesMeaning(k: Spaces, s: string)
    ensures AllSpaces(k, s[..LeadingSpaces(k, s)])
    ensures LeadingSpaces(k, s) == |s| || !Skips(k, s[LeadingSpaces(k, s)])
  {
    if |s| > 0 && Skips(k, s[0]) {
      var m := LeadingSpaces(k, s[1..]);
      LeadingSpacesMeaning(k, s[1..]);
      SpacesCons(k, s, m);
      if m < |s| - 1 {
        assert s[m + 1] == s[1..][m];
      }
    }
  }

  /** Trimming the end removes whitespace only, and all of the trailing
      whitespace. */
  lemma {:induction false} TrailingSpacesMeaning(k: Spaces, s: string)
    ensures AllSpaces(k, s[|s| - TrailingSpaces(k, s)..])
    ensures TrailingSpaces(k, s) == |s| || !Skips(k, s[|s| - 1 - TrailingSpaces(k, s)])
  {
    if |s| > 0 && Skips(k, s[|s| - 1]) {
      var init := s[..|s| - 1];
      var m := TrailingSpaces(k, init);
      TrailingSpacesMeaning(k, init);
      forall i | |s| - 1 - m <= i < |s|
        ensures Skips(k, s[i])
      {
        if i < |s| - 1 {
          assert s[i] == init[|init| - m..][i - (|s| - 1 - m)];
        }
      }
      var tail := s[|s| - 1 - m..];
      assert forall j :: 0 <= j < |tail| ==> tail[j] == s[|s| - 1 - m + j];
      if m < |init| {
        assert s[|s| - 2 - m] == init[|init| - 1 - m];
      }
    }
  }

  lemma {:induction false} LeadingSpacesPadded(k: Spaces, a: string, x: string)
    requires AllSpaces(k, a)
    requires x == [] || !Skips(k, x[0])
    ensures LeadingSpaces(k, a + x) == |a|
  {
    if |a| > 0 {
      assert (a + x)[1..] == a[1..] + x && (a + x)[0] == a[0];
      LeadingSpacesPadded(k, a[1..], x);
    } else {
      assert a + x == x;
    }
  }

  lemma {:induction false} TrailingSpacesPadded(k: Spaces, x: string, b: string)
    requires AllSpaces(k, b)
    requires x == [] || !Skips(k, x[|x| - 1])
    ensures TrailingSpaces(k, x + b) == |b|
  {
    if |b| > 0 {
      assert (x + b)[..|x + b| - 1] == x + b[..|b| - 1] && (x + b)[|x + b| - 1] == b[|b| - 1];
      TrailingSpacesPadded(k, x, b[..|b| - 1]);
    } else {
      assert x + b == x;
    }
  }

  lemma TrimStartSpaces(k: Spaces, a: string, x: string)
    requires AllSpaces(k, a)
    requires x == [] || !Skips(k, x[0])
    ensures TrimStart(k, a + x) == x
  {
    LeadingSpacesPadded(k, a, x);
    assert (a + x)[|a|..] == x;
  }

  lemma TrimEndSpaces(k: Spaces, x: string, b: string)
    requires AllSpaces(k, b)
    requires x == [] || !Skips(k, x[|x| - 1])
    ensures TrimEnd(k, x + b) == x
  {
    TrailingSpacesPadded(k, x, b);
    assert (x + b)[..|x|] == x;
  }

  /** A trim (`strip()` for `StrSpaces`, the one inside `int()` for
      `IntSpaces`) removes exactly the whitespace padding around a text that
      neither starts nor ends with whitespace. */
  lemma StripPadded(k: Spaces, a: string, x: string, b: string)
    requires AllSpaces(k, a) && AllSpaces(k, b)
    requires x == [] || (!Skips(k, x[0]) && !Skips(k, x[|x| - 1]))
    ensures Trim(k, a + x + b) == x
  {
    assert a + x + b == a + (x + b);
    if x == [] {
      assert AllSpaces(k, a + b);
      TrimStartSpaces(k, a + b, []);
      assert a + b + [] == a + b == a + x + b;
      assert TrimEnd(k, []) == [];
    } else {
      assert (x + b)[0] == x[0];
      TrimStartSpaces(k, a, x + b);
      assert TrimStart(k, a + x + b) == x + b;
      TrimEndSpaces(k, x, b);
    }
  }

  lemma StripIdempotent(k: Spaces, s: string)
    ensures Trim(k, Trim(k, s)) == Trim(k, s)
  {
    var u := TrimStart(k, s);
    var t := TrimEnd(k, u);
    LeadingSpacesMeaning(k, s);
    TrailingSpacesMeaning(k, u);
    if t != [] {
      assert t[0] == u[0] && t[|t| - 1] == u[|t| - 1];
    }
    StripPadded(k, [], t, []);
    assert [] + t + [] == t;
  }

  // ---------------------------------------------------------------------------
  // int()

  lemma DigitsValueSnoc(s: string, c: char)
    requires AllDigits(s) && IsDigit(c)
    ensures AllDigits(s + [c]) && DigitsValue(s + [c]) == 10 * DigitsValue(s) + DigitValue(c)
  {
    assert (s + [c])[..|s + [c]| - 1] == s;
  }

  /** Appending one digit, or an underscore and a digit, to a text keeps it a
      literal body exactly when the text already was one, and shifts the
      value of its digits one decimal place. */
  lemma DigitBodyStep(head: string, u: string, c: char)
    requires IsDigit(c)
    requires u == [c] || u == ['_', c]
    requires u == [c] ==> |head| > 0 && head[|head| - 1] != '_'
    ensures IsDigitBody(head + u) <==> IsDigitBody(head)
    ensures IsDigitBody(head) ==> AllDigits(Remove(head, '_')) && AllDigits(Remove(head + u, '_'))
    ensures IsDigitBody(head) ==> DigitsValue(Remove(head + u, '_')) == 10 * DigitsValue(Remove(head, '_')) + DigitValue(c)
  {
    if IsDigitBody(head) {
      DigitBodyExtends(head, u, c);
      RemoveUnderscoresOfBody(head);
      RemoveAppend(head, u, '_');
      assert Remove(u, '_') == [c];
      DigitsValueSnoc(Remove(head, '_'), c);
    }
    if IsDigitBody(head + u) {
      DigitBodyShrinks(head, u, c);
    }
  }

  lemma DigitBodyExtends(head: string, u: string, c: char)
    requires IsDigit(c) && IsDigitBody(head)
    requires u == [c] || u == ['_', c]
    requires u == [c] ==> head[|head| - 1] != '_'
    ensures IsDigitBody(head + u)
  {
    var t := head + u;
    forall i | 0 <= i < |t| - 1 && t[i] == '_'
      ensures t[i + 1] != '_'
    {
      if i < |head| - 1 {
        assert t[i] == head[i] && t[i + 1] == head[i + 1];
      }
    }
    assert t[0] == head[0];
    assert forall i :: 0 <= i < |head| ==> t[i] == head[i];
  }

  lemma DigitBodyShrinks(head: string, u: string, c: char)
    requires IsDigit(c) && IsDigitBody(head + u)
    requires u == [c] || u == ['_', c]
    requires u == [c] ==> |head| > 0 && head[|head| - 1] != '_'
    ensures IsDigitBody(head)
  {
    var t := head + u;
    assert head[0] == t[0];
    if u == ['_', c] {
      assert t[|head|] == '_';
      assert t[|head| - 1] != '_';
    }
    assert head[|head| - 1] == t[|head| - 1];
    assert forall i :: 0 <= i < |head| ==> head[i] == t[i];
  }

  /** The scanner accepts exactly the literal bodies, and its value is that of
      the digits once the underscores are dropped. */
  lemma {:induction false} ParseDigitsMeaning(t: string)
    ensures IsDigitBody(t) ==> AllDigits(Remove(t, '_'))
    ensures ParseDigits(t) == if IsDigitBody(t) then Some(DigitsValue(Remove(t, '_'))) else None
    decreases |t|
  {
    if |t| == 0 || !IsDigit(t[|t| - 1]) {
    } else if |t| == 1 {
      assert Remove(t, '_') == t;
    } else {
      var c := t[|t| - 1];
      var head, u := ScanStep(t);
      ParseDigitsMeaning(head);
      DigitBodyStep(head, u, c);
      if IsDigitBody(head) {
        assert ParseDigits(t) == Some(10 * DigitsValue(Remove(head, '_')) + DigitValue(c));
      }
    }
  }

  /** One step of the scanner: `t` is `head` followed by `u`, its last digit
      with the underscore before it, if any. */
  lemma ScanStep(t: string) returns (head: string, u: string)
    requires |t| > 1 && IsDigit(t[|t| - 1])
    ensures t == head + u && |head| < |t|
    ensures u == [t[|t| - 1]] || u == ['_', t[|t| - 1]]
    ensures u == [t[|t| - 1]] ==> |head| > 0 && head[|head| - 1] != '_'
    ensures ParseDigits(t) == match ParseDigits(head)
      case None => None
      case Some(v) => Some(10 * v + DigitValue(t[|t| - 1]))
  {
    var c := t[|t| - 1];
    var init := t[..|t| - 1];
    if init[|init| - 1] == '_' {
      head, u := init[..|init| - 1], ['_', c];
    } else {
      head, u := init, [c];
    }
    assert t == head + u;
  }

  lemma ParseDigitsOfDigits(d: string)
    requires |d| > 0 && AllDigits(d)
    ensures ParseDigits(d) == Some(DigitsValue(d))
  {
    assert IsDigitBody(d);
    ParseDigitsMeaning(d);
    RemoveAbsent(d, '_');
  }

  /** A run of digits, with or without a minus sign in front, as `int()` reads
      it once the text is stripped. */
  lemma ParseSignedDigits(d: string)
    requires |d| > 0 && AllDigits(d)
    ensures ParseSigned(d) == Some(DigitsValue(d))
    ensures ParseSigned("-" + d) == Some(-(DigitsValue(d) as int))
  {
    ParseDigitsOfDigits(d);
    assert IsDigit(d[0]);
    var x := "-" + d;
    assert x[0] == '-' && x[1..] == d;
  }

  lemma NatRoundTrip(a: string, d: string, b: string)
    requires AllSpaces(IntSpaces, a) && AllSpaces(IntSpaces, b)
    requires |d| > 0 && AllDigits(d)
    ensures ParseInt(a + d + b) == Some(DigitsValue(d))
  {
    assert Trim(IntSpaces, a + d + b) == d by {
      StripPadded(IntSpaces, a, d, b);
    }
    ParseSignedDigits(d);
  }

  lemma NegativeRoundTrip(a: string, d: string, b: string)
    requires AllSpaces(IntSpaces, a) && AllSpaces(IntSpaces, b)
    requires |d| > 0 && AllDigits(d)
    ensures ParseInt(a + ("-" + d) + b) == Some(-(DigitsValue(d) as int))
  {
    var x := "-" + d;
    assert Trim(IntSpaces, a + x + b) == x by {
      assert x[|x| - 1] == d[|d| - 1];
      StripPadded(IntSpaces, a, x, b);
    }
    ParseSignedDigits(d);
  }

  /** `int()` reads back what `str()` writes, whatever whitespace `int()`
      skips surrounds it. */
  lemma IntRoundTrip(a: string, n: int, b: string)
    requires AllSpaces(IntSpaces, a) && AllSpaces(IntSpaces, b)
    ensures ParseInt(a + IntToString(n) + b) == Some(n)
  {
    if n < 0 {
      NegativeRoundTrip(a, NatToString(-n), b);
    } else {
      NatRoundTrip(a, NatToString(n), b);
    }
  }

  lemma IntToStringParses(n: int)
    ensures ParseInt(IntToString(n)) == Some(n)
  {
    IntRoundTrip([], n, []);
    assert [] + IntToString(n) + [] == IntToString(n);
  }

  /** A run of ASCII digits is an integer literal whose value is its digits'. */
  lemma ParseAllDigits(d: string)
    requires |d| > 0 && AllDigits(d)
    ensures ParseInt(d) == Some(DigitsValue(d))
  {
    assert Trim(IntSpaces, d) == d by {
      StripPadded(IntSpaces, [], d, []);
      assert [] + d + [] == d;
    }
    ParseSignedDigits(d);
  }

  /** `int()` accepts exactly an optional sign followed by a literal body once
      the whitespace it skips is trimmed, and returns the value of the body's
      digits, negated after a minus sign. */
  lemma ParseIntMeaning(s: string)
    ensures var t := Trim(IntSpaces, s);
      var signed := |t| > 0 && (t[0] == '+' || t[0] == '-');
      var body := if signed then t[1..] else t;
      && (ParseInt(s).Some? <==> IsDigitBody(body))
      && (IsDigitBody(body) ==> AllDigits(Remove(body, '_')))
      && (IsDigitBody(body) ==>
            ParseInt(s).value == if signed && t[0] == '-' then -(DigitsValue(Remove(body, '_')) as int)
                                 else DigitsValue(Remove(body, '_')))
  {
    var t := Trim(IntSpaces, s);
    if |t| > 0 && (t[0] == '+' || t[0] == '-') {
      ParseDigitsMeaning(t[1..]);
    } else {
      ParseDigitsMeaning(t);
    }
  }

  /** The characters that can occur in a text `int()` accepts. */
  predicate IsIntChar(c: char) {
    IsDigit(c) || Skips(IntSpaces, c) || c == '_' || c == '+' || c == '-'
  }

  /** A trim removes whitespace of its kind only. */
  lemma StripInside(k: Spaces, s: string, i: int)
    requires 0 <= i < |s|
    ensures Skips(k, s[i]) || s[i] in Trim(k, s)
  {
    var u := TrimStart(k, s);
    var t := TrimEnd(k, u);
    var n := LeadingSpaces(k, s);
    LeadingSpacesMeaning(k, s);
    TrailingSpacesMeaning(k, u);
    if i < n {
      assert s[..n][i] == s[i];
    } else if i < n + |t| {
      assert s[i] == u[i - n] == t[i - n];
    } else {
      assert s[i] == u[i - n] == u[|t|..][i - n - |t|];
    }
  }

  /** Every character of a text that `int()` accepts is a digit, a sign, an
      underscore or whitespace that `int()` skips. */
  lemma ParseIntAlphabet(s: string, i: int)
    requires 0 <= i < |s|
    requires ParseInt(s).Some?
    ensures IsIntChar(s[i])
  {
    var t := Trim(IntSpaces, s);
    StripInside(IntSpaces, s, i);
    if !Skips(IntSpaces, s[i]) {
      var j :| 0 <= j < |t| && t[j] == s[i];
      if |t| > 0 && (t[0] == '+' || t[0] == '-') {
        ParseDigitsMeaning(t[1..]);
        if j > 0 {
          assert t[1..][j - 1] == t[j];
        }
      } else {
        ParseDigitsMeaning(t);
      }
    }
  }
}
