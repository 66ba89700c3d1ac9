/** The Python string operations the models need: `isspace`, `strip`, blankness, decimals. */
module PythonText {

  const SPACES: set<char> :=
    {'\t', '\n', '\U{0b}', '\U{0c}', '\r', '\U{1c}', '\U{1d}', '\U{1e}', '\U{1f}', ' ', '\U{85}', '\U{a0}',
     '\U{1680}', '\U{2000}', '\U{2001}', '\U{2002}', '\U{2003}', '\U{2004}', '\U{2005}', '\U{2006}',
     '\U{2007}', '\U{2008}', '\U{2009}', '\U{200a}', '\U{2028}', '\U{2029}', '\U{202f}', '\U{205f}', '\U{3000}'}

  predicate IsSpace(c: char) {
    c in SPACES
  }

  function StripLeft(s: string): string {
    if s != [] && IsSpace(s[0]) then StripLeft(s[1..]) else s
  }

  function StripRight(s: string): string {
    if s != [] && IsSpace(s[|s| - 1]) then StripRight(s[..|s| - 1]) else s
  }

  function Strip(s: string): string {
    StripRight(StripLeft(s))
  }

  predicate IsBlank(s: string) {
    Strip(s) == ""
  }

  lemma {:induction false} StripRightEdges(s: string)
    ensures StripRight(s) <= s
    ensures StripRight(s) != "" ==> !IsSpace(StripRight(s)[|StripRight(s)| - 1])
  {
    if s != [] && IsSpace(s[|s| - 1]) {
      StripRightEdges(s[..|s| - 1]);
    }
  }

  lemma {:induction false} StripLeftEdge(s: string)
    ensures StripLeft(s) != "" ==> !IsSpace(StripLeft(s)[0])
  {
    if s != [] && IsSpace(s[0]) {
      StripLeftEdge(s[1..]);
    }
  }

  lemma StripIsIdempotent(s: string)
    ensures Strip(Strip(s)) == Strip(s)
  {
    StripLeftEdge(s);
    StripRightEdges(StripLeft(s));
  }

  ghost predicate AllSpaces(s: string) {
    forall i :: 0 <= i < |s| ==> IsSpace(s[i])
  }

  /** `t` is `s` without the white space at its two ends. */
  ghost predicate Stripped(s: string, t: string) {
    && (t != "" ==> !IsSpace(t[0]) && !IsSpace(t[|t| - 1]))
    && exists a, b :: s == a + t + b && AllSpaces(a) && AllSpaces(b)
  }

  lemma {:induction false} StripRightCuts(s: string) returns (b: string)
    ensures s == StripRight(s) + b && AllSpaces(b)
  {
    if s != [] && IsSpace(s[|s| - 1]) {
      var rest := StripRightCuts(s[..|s| - 1]);
      b := rest + [s[|s| - 1]];
    } else {
      b := "";
    }
  }

  lemma {:induction false} StripLeftCuts(s: string) returns (a: string)
    ensures s == a + StripLeft(s) && AllSpaces(a)
  {
    if s != [] && IsSpace(s[0]) {
      var rest := StripLeftCuts(s[1..]);
      a := [s[0]] + rest;
    } else {
      a := "";
    }
  }

  lemma {:induction false} StripLeftSkips(a: string, s: string)
    requires AllSpaces(a)
    ensures StripLeft(a + s) == StripLeft(s)
  {
    if a == "" {
      assert a + s == s;
    } else {
      StripLeftSkips(a[1..], s);
      assert (a + s)[1..] == a[1..] + s;
    }
  }

  lemma {:induction false} StripRightSkips(s: string, b: string)
    requires AllSpaces(b)
    ensures StripRight(s + b) == StripRight(s)
  {
    if b == "" {
      assert s + b == s;
    } else {
      StripRightSkips(s, b[..|b| - 1]);
      assert (s + b)[..|s + b| - 1] == s + b[..|b| - 1];
    }
  }

  /** `strip` removes the white space at both ends, all of it and nothing else. */
  lemma StripIsExact(s: string, t: string)
    ensures Strip(s) == t <==> Stripped(s, t)
  {
    if Strip(s) == t { StripCutsSpaces(s); }
    if Stripped(s, t) {
      var a, b :| s == a + t + b && AllSpaces(a) && AllSpaces(b);
      StripOfPadded(a, t, b);
    }
  }

  lemma StripCutsSpaces(s: string)
    ensures Stripped(s, Strip(s))
  {
    var t := Strip(s);
    var a := StripLeftCuts(s);
    var b := StripRightCuts(StripLeft(s));
    StripLeftEdge(s);
    StripRightEdges(StripLeft(s));
    assert s == a + (t + b) == a + t + b;
  }

  lemma StripOfPadded(a: string, t: string, b: string)
    requires AllSpaces(a) && AllSpaces(b) && (t != "" ==> !IsSpace(t[0]) && !IsSpace(t[|t| - 1]))
    ensures Strip(a + t + b) == t
  {
    assert a + t + b == a + (t + b);
    StripLeftSkips(a, t + b);
    if t == "" {
      StripLeftSkips(b, "");
      assert t + b == b == b + "";
    } else {
      StripRightSkips(t, b);
      assert (t + b)[0] == t[0];
    }
  }

  lemma BlankIsAllSpaces(s: string)
    ensures IsBlank(s) <==> AllSpaces(s)
  {
    if IsBlank(s) {
      var a := StripLeftCuts(s);
      var b := StripRightCuts(StripLeft(s));
      assert s == a + b;
    }
    if AllSpaces(s) {
      StripLeftSkips(s, "");
      assert s + "" == s;
    }
  }

  // ---------------------------------------------------------------------------
  // Decimal numerals
  // ---------------------------------------------------------------------------

  const DIGITS := "0123456789"

  function Digit(n: nat): char
    requires n < 10
  {
    DIGITS[n]
  }

  predicate IsDigit(c: char) {
    '0' <= c <= '9'
  }

  function Decimal(n: nat): (s: string)
    ensures s != [] && AllDigits(s)
  {
    if n < 10 then [Digit(n)] else Decimal(n / 10) + [Digit(n % 10)]
  }

  predicate AllDigits(s: string) {
    forall i :: 0 <= i < |s| ==> IsDigit(s[i])
  }

  /** The number a digit string stands for. */
  function NumberOf(s: string): nat
    requires AllDigits(s)
  {
    if s == [] then 0
    else
      var last := s[|s| - 1];
      assert IsDigit(last);
      NumberOf(s[..|s| - 1]) * 10 + (last as int - '0' as int)
  }

  lemma OneMoreDigit(s: string, c: char)
    requires AllDigits(s) && IsDigit(c)
    ensures AllDigits(s + [c]) && NumberOf(s + [c]) == NumberOf(s) * 10 + (c as int - '0' as int)
  {
    assert (s + [c])[..|s|] == s;
  }

  lemma {:induction false} DecimalValue(n: nat)
    ensures NumberOf(Decimal(n)) == n
  {
    if n < 10 {
      OneMoreDigit("", Digit(n));
      assert "" + [Digit(n)] == [Digit(n)];
    } else {
      DecimalValue(n / 10);
      OneMoreDigit(Decimal(n / 10), Digit(n % 10));
    }
  }

  lemma DigitIsNotSpace(c: char)
    requires IsDigit(c)
    ensures !IsSpace(c)
  {
  }

  lemma StripOfDigits(s: string)
    requires s != [] && IsDigit(s[0]) && IsDigit(s[|s| - 1])
    ensures Strip(s) == s
  {
    DigitIsNotSpace(s[0]);
    DigitIsNotSpace(s[|s| - 1]);
  }
}
