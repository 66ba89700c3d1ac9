/**
 The values of `app/core/settings_store.py`: validation of an override, and the effective
 value of a row. `SettingsCache` has the cache in front of the table.
 */
module SettingsStore {
  import opened Wrappers
  import opened PythonText

  // ---------------------------------------------------------------------------
  // Validation
  // ---------------------------------------------------------------------------

  /** A JSON value as stored in the row or sent by an admin. */
  datatype Raw = Whole(i: int) | Fraction(r: real) | Truth(b: bool) | Text(s: string) | Null | Structure

  datatype Kind = IntKind | BoolKind | StrKind(allowBlank: bool, maxLength: Option<nat>, strip: bool)

  datatype Value = IntValue(i: int) | BoolValue(b: bool) | StrValue(s: string)
  {
    function ToRaw(): Raw {
      match this
      case IntValue(i) => Whole(i)
      case BoolValue(b) => Truth(b)
      case StrValue(s) => Text(s)
    }
  }

  datatype Spec = Spec(kind: Kind, default: Value)

  datatype Reason = ExpectedInteger | MustBePositive | ExpectedBoolean | ExpectedText | TooLong

  // Decimal digits, with single underscores allowed between them.
  function ParseDigits(s: string): Option<nat> {
    if s == [] || !IsDigit(s[|s| - 1]) then None
    else
      var digit := s[|s| - 1] as int - '0' as int;
      var head := s[..|s| - 1];
      if head == [] then Some(digit)
      else
        var rest := ParseDigits(if head[|head| - 1] == '_' then head[..|head| - 1] else head);
        if rest.None? then None else Some(rest.value * 10 + digit)
  }

  // `int(text)`
  function ParseInt(s: string): Option<int> {
    var t := Strip(s);
    var negative := t != [] && t[0] == '-';
    var digits := ParseDigits(if t != [] && (t[0] == '-' || t[0] == '+') then t[1..] else t);
    if digits.None? then None
    else Some(if negative then -(digits.value as int) else digits.value as int)
  }

  // `int(number)` truncates toward zero.
  function Truncate(r: real): int {
    if r >= 0.0 then r.Floor else -((-r).Floor)
  }

  function ToInt(raw: Raw): Option<int> {
    match raw
    case Whole(i) => Some(i)
    case Fraction(r) => Some(Truncate(r))
    case Text(s) => ParseInt(s)
    case _ => None
  }

  function Coerce(kind: Kind, raw: Raw): Result<Value, Reason> {
    match kind
    case IntKind =>
      var parsed := ToInt(raw);
      if parsed.None? then Err(ExpectedInteger)
      else if parsed.value <= 0 then Err(MustBePositive)
      else Ok(IntValue(parsed.value))
    case BoolKind =>
      if raw.Truth? then Ok(BoolValue(raw.b)) else Err(ExpectedBoolean)
    case StrKind(allowBlank, maxLength, strip) =>
      if !raw.Text? then Err(ExpectedText)
      else
        var text := if strip then Strip(raw.s) else raw.s;
        if !allowBlank && IsBlank(text) then Err(ExpectedText)
        else if maxLength.Some? && |text| > maxLength.value then Err(TooLong)
        else Ok(StrValue(text))
  }

  /** What validation returns passes validation unchanged. */
  lemma CoerceIsIdempotent(kind: Kind, raw: Raw)
    requires Coerce(kind, raw).Ok?
    ensures Coerce(kind, Coerce(kind, raw).value.ToRaw()) == Coerce(kind, raw)
  {
    if kind.StrKind? {
      StripIsIdempotent(raw.s);
    }
  }

  /** A value a policy may hold. */
  predicate Legal(kind: Kind, value: Value) {
    match kind
    case IntKind => value.IntValue? && value.i > 0
    case BoolKind => value.BoolValue?
    case StrKind(allowBlank, maxLength, strip) =>
      && value.StrValue? && (allowBlank || !IsBlank(value.s))
      && (maxLength.Some? ==> |value.s| <= maxLength.value)
      && (strip ==> Strip(value.s) == value.s)
  }

  /** Validation returns legal values only, and leaves exactly those unchanged. */
  lemma LegalValuesAreFixed(kind: Kind, raw: Raw, value: Value)
    ensures Coerce(kind, raw).Ok? ==> Legal(kind, Coerce(kind, raw).value)
    ensures Coerce(kind, value.ToRaw()) == Ok(value) <==> Legal(kind, value)
  {
    if raw.Text? { StripIsIdempotent(raw.s); }
  }

  // ---------------------------------------------------------------------------
  // Which values are accepted
  // ---------------------------------------------------------------------------

  function WithoutUnderscores(s: string): string {
    if s == [] then []
    else WithoutUnderscores(s[..|s| - 1]) + if s[|s| - 1] == '_' then [] else [s[|s| - 1]]
  }

  // Digits, with single underscores allowed between them.
  predicate Grouped(s: string) {
    && s != [] && s[0] != '_' && s[|s| - 1] != '_'
    && (forall i :: 0 <= i < |s| ==> IsDigit(s[i]) || s[i] == '_')
    && (forall i :: 0 < i < |s| ==> !(s[i - 1] == '_' && s[i] == '_'))
  }

  lemma {:induction false} ParseIsExact(s: string)
    ensures ParseDigits(s).Some? <==> Grouped(s)
    ensures Grouped(s) ==> AllDigits(WithoutUnderscores(s)) && ParseDigits(s).value == NumberOf(WithoutUnderscores(s))
    decreases |s|
  {
    if s != [] && IsDigit(s[|s| - 1]) {
      var head, last := s[..|s| - 1], s[|s| - 1];
      if head == [] {
        OneMoreDigit("", last);
        assert WithoutUnderscores(s) == "" + [last];
      } else {
        var rest := if head[|head| - 1] == '_' then head[..|head| - 1] else head;
        GroupedHead(s, head, rest);
        ParseIsExact(rest);
        if Grouped(rest) { OneMoreDigit(WithoutUnderscores(rest), last); }
        assert WithoutUnderscores(s) == WithoutUnderscores(rest) + [last];
      }
    }
  }

  lemma GroupedHead(s: string, head: string, rest: string)
    requires s != [] && IsDigit(s[|s| - 1]) && head == s[..|s| - 1] != []
    requires rest == if head[|head| - 1] == '_' then head[..|head| - 1] else head
    ensures Grouped(s) <==> Grouped(rest)
  {
    if Grouped(rest) {
      forall i | 0 <= i < |s| ensures IsDigit(s[i]) || s[i] == '_' { assert i < |rest| ==> s[i] == rest[i]; }
      forall i | 0 < i < |s| ensures !(s[i - 1] == '_' && s[i] == '_')
      {
        assert i < |rest| ==> s[i] == rest[i] && s[i - 1] == rest[i - 1];
      }
      assert s[0] == rest[0];
    }
    if Grouped(s) {
      if head[|head| - 1] == '_' {
        assert s[|head| - 1] == '_' && s[0] != '_';
        assert s[|rest|] == '_' && s[|rest| - 1] != '_';
      }
      forall i | 0 < i < |rest| ensures !(rest[i - 1] == '_' && rest[i] == '_')
      {
        assert !(s[i - 1] == '_' && s[i] == '_');
      }
    }
  }

  // The number that grouped digits stand for.
  predicate Means(s: string, n: nat) {
    Grouped(s) && AllDigits(WithoutUnderscores(s)) && NumberOf(WithoutUnderscores(s)) == n
  }

  // A sign, if any, and digits.
  predicate Signed(t: string, n: int) {
    if t != [] && t[0] == '-' then n <= 0 && Means(t[1..], -n)
    else n >= 0 && Means(if t != [] && t[0] == '+' then t[1..] else t, n)
  }

  /** The integer that a raw value stands for: a number cut toward zero, or the text of a
      decimal integer with white space around it. */
  ghost predicate StandsFor(raw: Raw, n: int) {
    match raw
    case Whole(i) => n == i
    case Fraction(r) => if r >= 0.0 then n as real <= r < (n + 1) as real else (n - 1) as real < r <= n as real
    case Text(s) => exists t :: Stripped(s, t) && Signed(t, n)
    case _ => false
  }

  lemma ToIntIsExact(raw: Raw, n: int)
    ensures ToInt(raw) == Some(n) <==> StandsFor(raw, n)
  {
    if raw.Text? { TextIsExact(raw.s, n); }
  }

  lemma TextIsExact(s: string, n: int)
    ensures ParseInt(s) == Some(n) <==> exists t :: Stripped(s, t) && Signed(t, n)
  {
    StripIsExact(s, Strip(s));
    SignedIsExact(Strip(s), n);
    forall t | Stripped(s, t) ensures t == Strip(s) { StripIsExact(s, t); }
  }

  lemma SignedIsExact(t: string, n: int)
    ensures var digits := ParseDigits(if t != [] && (t[0] == '-' || t[0] == '+') then t[1..] else t);
            (digits.Some? && n == if t != [] && t[0] == '-' then -(digits.value as int) else digits.value as int)
            <==> Signed(t, n)
  {
    var body := if t != [] && (t[0] == '-' || t[0] == '+') then t[1..] else t;
    ParseIsExact(body);
  }

  /** The setting's value that a raw value is accepted for: of an integer setting a positive
      integer, of a boolean one that boolean, of a text one the text, stripped if it says so,
      not blank unless it may be, and not too long. */
  ghost predicate AcceptedFor(kind: Kind, raw: Raw, value: Value) {
    match kind
    case IntKind => value.IntValue? && value.i >= 1 && StandsFor(raw, value.i)
    case BoolKind => value.BoolValue? && raw == Truth(value.b)
    case StrKind(allowBlank, maxLength, strip) =>
      && raw.Text? && value.StrValue?
      && (if strip then Stripped(raw.s, value.s) else value.s == raw.s)
      && (allowBlank || exists i :: 0 <= i < |value.s| && !IsSpace(value.s[i]))
      && (maxLength.Some? ==> |value.s| <= maxLength.value)
  }

  /** Validation accepts exactly that. */
  lemma CoerceIsExact(kind: Kind, raw: Raw, value: Value)
    ensures Coerce(kind, raw) == Ok(value) <==> AcceptedFor(kind, raw, value)
  {
    match kind
    case IntKind => if value.IntValue? { ToIntIsExact(raw, value.i); }
    case BoolKind =>
    case StrKind(_, _, strip) =>
      if raw.Text? && value.StrValue? {
        if strip { StripIsExact(raw.s, value.s); }
        BlankIsAllSpaces(value.s);
      }
  }

  /** Why the others are refused. An integer that is not positive and a text that is only too
      long are told so, all else that the wrong kind was given. */
  lemma RefusalIsExact(kind: Kind, raw: Raw, n: int)
    ensures kind.IntKind? && StandsFor(raw, n) && n <= 0 ==> Coerce(kind, raw) == Err(MustBePositive)
    ensures kind.IntKind? && Coerce(kind, raw) == Err(MustBePositive) ==>
              exists m {:trigger StandsFor(raw, m)} :: m <= 0 && StandsFor(raw, m)
    ensures Coerce(kind, raw) == Err(TooLong) <==>
            && kind.StrKind? && kind.maxLength.Some?
            && exists value :: AcceptedFor(kind.(maxLength := None), raw, value) && |value.s| > kind.maxLength.value
    ensures Coerce(kind, raw).Err? ==>
              Coerce(kind, raw).error in if kind.IntKind? then {ExpectedInteger, MustBePositive}
                                         else if kind.BoolKind? then {ExpectedBoolean} else {ExpectedText, TooLong}
  {
    if kind.IntKind? {
      ToIntIsExact(raw, n);
      if ToInt(raw).Some? { ToIntIsExact(raw, ToInt(raw).value); }
    } else if kind.StrKind? && kind.maxLength.Some? {
      var unbounded := kind.(maxLength := None);
      if Coerce(unbounded, raw).Ok? { CoerceIsExact(unbounded, raw, Coerce(unbounded, raw).value); }
      forall value | AcceptedFor(unbounded, raw, value) ensures Coerce(unbounded, raw) == Ok(value)
      {
        CoerceIsExact(unbounded, raw, value);
      }
    }
  }

  lemma {:induction false} ParseDecimal(n: nat)
    ensures ParseDigits(Decimal(n)) == Some(n)
  {
    var s := Decimal(n);
    assert IsDigit(s[|s| - 1]);
    if n >= 10 {
      var head := Decimal(n / 10);
      ParseDecimal(n / 10);
      assert s[..|s| - 1] == head && IsDigit(head[|head| - 1]);
    }
  }

  /** A positive number written out as text is accepted for the number. */
  lemma NumericTextIsAccepted(n: nat)
    requires n > 0
    ensures Coerce(IntKind, Text(Decimal(n))) == Ok(IntValue(n))
    ensures Coerce(IntKind, Text(Decimal(n))) == Coerce(IntKind, Whole(n))
  {
    var s := Decimal(n);
    ParseDecimal(n);
    assert IsDigit(s[0]) && IsDigit(s[|s| - 1]);
    StripOfDigits(s);
    SignlessParse(s);
  }

  lemma SignlessParse(s: string)
    requires s != [] && IsDigit(s[0]) && Strip(s) == s && ParseDigits(s).Some?
    ensures ParseInt(s) == Some(ParseDigits(s).value)
  {
  }

  /** The effective value of a row: the override if it is well formed, else the default. */
  function Effective(spec: Spec, row: Option<Raw>): Value {
    if row.None? then spec.default
    else
      var coerced := Coerce(spec.kind, row.value);
      if coerced.Ok? then coerced.value else spec.default
  }

  /** What a row is served as: the value it is accepted for, or else, and without a row, the default. */
  ghost predicate Serves(spec: Spec, row: Option<Raw>, value: Value) {
    if row.Some? && exists v :: AcceptedFor(spec.kind, row.value, v) then AcceptedFor(spec.kind, row.value, value)
    else value == spec.default
  }

  lemma EffectiveIsServed(spec: Spec, row: Option<Raw>)
    ensures Serves(spec, row, Effective(spec, row))
  {
    if row.Some? {
      if Coerce(spec.kind, row.value).Ok? {
        CoerceIsExact(spec.kind, row.value, Coerce(spec.kind, row.value).value);
      }
      forall v | AcceptedFor(spec.kind, row.value, v) ensures Coerce(spec.kind, row.value) == Ok(v)
      {
        CoerceIsExact(spec.kind, row.value, v);
      }
    }
  }
}
