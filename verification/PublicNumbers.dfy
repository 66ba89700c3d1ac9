/**
 `app/core/numbers.py`: public numbers drawn from a counter row that is inserted if
 absent, locked, incremented, and held to the end of the caller's transaction.

 Any number of transactions interleave. An uncommitted insert makes a rival insert
 wait; a row lock makes a rival lock wait; READ COMMITTED shows a transaction the
 committed rows and its own.
 */
module PublicNumbers {
  import opened Collections
  import opened Wrappers
  import opened PythonText

  // ---------------------------------------------------------------------------
  // Formatting
  // ---------------------------------------------------------------------------

  // `{:06d}`
  function Padded(s: string): (r: string)
    requires AllDigits(s)
    ensures AllDigits(r)
    decreases 6 - |s|
  {
    if |s| >= 6 then s else Padded("0" + s)
  }

  datatype Series = Series(prefix: string, year: nat)
  {
    function Scope(): string {
      prefix + ":" + Decimal(year)
    }
  }

  datatype Number = Number(series: Series, value: nat)
  {
    function Text(): string {
      series.prefix + "-" + Decimal(series.year) + "-" + Padded(Decimal(value))
    }
  }

  lemma {:induction false} LeadingZero(s: string)
    requires AllDigits(s)
    ensures NumberOf("0" + s) == NumberOf(s)
  {
    if s != [] {
      LeadingZero(s[..|s| - 1]);
      assert ("0" + s)[..|s|] == "0" + s[..|s| - 1];
    } else {
      assert "0" + s == "0";
    }
  }

  lemma {:induction false} PaddedValue(s: string)
    requires AllDigits(s)
    ensures NumberOf(Padded(s)) == NumberOf(s)
    decreases 6 - |s|
  {
    if |s| >= 6 {
    } else {
      PaddedValue("0" + s);
      LeadingZero(s);
    }
  }

  function Power(width: nat): (p: nat)
    ensures p >= 1
  {
    if width == 0 then 1 else 10 * Power(width - 1)
  }

  lemma {:induction false} DecimalWidth(n: nat, width: nat)
    requires width > 0
    ensures n < Power(width) <==> |Decimal(n)| <= width
  {
    assert Power(width) == 10 * Power(width - 1);
    if n >= 10 {
      assert |Decimal(n)| == |Decimal(n / 10)| + 1;
      if width > 1 { DecimalWidth(n / 10, width - 1); } else { assert Power(0) == 1; }
    }
  }

  lemma {:induction false} PaddedWidth(s: string)
    requires AllDigits(s)
    ensures |Padded(s)| == if |s| < 6 then 6 else |s|
    decreases 6 - |s|
  {
    if |s| >= 6 {
    } else {
      PaddedWidth("0" + s);
    }
  }

  /** The number is printed in six digits exactly below a million, and in more from there on. */
  lemma SixDigits(n: nat)
    ensures |Padded(Decimal(n))| >= 6
    ensures |Padded(Decimal(n))| == 6 <==> n < 1_000_000
  {
    PaddedWidth(Decimal(n));
    DecimalWidth(n, 6);
    assert Power(3) == 1_000;
    assert Power(6) == 1_000 * Power(3);
  }

  lemma LastMark(a: string, x: string, mark: char)
    requires mark !in x
    ensures var s := a + [mark] + x; s[|a|] == mark && forall k :: |a| < k < |s| ==> s[k] != mark
  {
    var s := a + [mark] + x;
    forall k | |a| < k < |s| ensures s[k] != mark
    {
      assert s[k] == x[k - |a| - 1];
    }
  }

  // The last separator splits a string in one way only.
  lemma LastSeparator(a: string, b: string, x: string, y: string, mark: char)
    requires a + [mark] + x == b + [mark] + y
    requires mark !in x && mark !in y
    ensures a == b && x == y
  {
    LastMark(a, x, mark);
    LastMark(b, y, mark);
    var s := a + [mark] + x;
    assert |a| == |b|;
    assert a == s[..|a|] && b == s[..|b|] && x == s[|a| + 1..] && y == s[|b| + 1..];
  }

  lemma DecimalIsInjective(m: nat, n: nat)
    requires Decimal(m) == Decimal(n)
    ensures m == n
  {
    DecimalValue(m);
    DecimalValue(n);
  }

  lemma ScopeIsInjective(a: Series, b: Series)
    requires a.Scope() == b.Scope()
    ensures a == b
  {
    LastSeparator(a.prefix, b.prefix, Decimal(a.year), Decimal(b.year), ':');
    DecimalIsInjective(a.year, b.year);
  }

  /** The printed number determines its prefix, year and value, whatever the prefix contains. */
  lemma TextIsInjective(a: Number, b: Number)
    requires a.Text() == b.Text()
    ensures a == b
  {
    var headA := a.series.prefix + "-" + Decimal(a.series.year);
    var headB := b.series.prefix + "-" + Decimal(b.series.year);
    LastSeparator(headA, headB, Padded(Decimal(a.value)), Padded(Decimal(b.value)), '-');
    LastSeparator(a.series.prefix, b.series.prefix, Decimal(a.series.year), Decimal(b.series.year), '-');
    DecimalIsInjective(a.series.year, b.series.year);
    PaddedValue(Decimal(a.value));
    PaddedValue(Decimal(b.value));
    DecimalValue(a.value);
    DecimalValue(b.value);
  }

  // A numeral of at least `width` digits, with a leading zero only to fill that width.
  predicate Numeral(s: string, width: nat, value: nat) {
    AllDigits(s) && |s| >= width && NumberOf(s) == value && (|s| > width ==> s[0] != '0')
  }

  /** A printed number as its reader takes it apart: prefix, year, and a number of six digits or more. */
  ghost predicate Reads(text: string, prefix: string, year: nat, value: nat) {
    exists y, t :: text == prefix + "-" + y + "-" + t && Numeral(y, 1, year) && Numeral(t, 6, value)
  }

  lemma {:induction false} DecimalIsNumeral(n: nat)
    ensures Numeral(Decimal(n), 1, n) && (n > 0 ==> Decimal(n)[0] != '0')
  {
    DecimalValue(n);
    if n >= 10 { DecimalIsNumeral(n / 10); }
  }

  lemma {:induction false} PaddedIsNumeral(s: string, value: nat)
    requires AllDigits(s) && NumberOf(s) == value && (|s| > 6 ==> s[0] != '0')
    ensures Numeral(Padded(s), 6, value)
    decreases 6 - |s|
  {
    if |s| < 6 {
      LeadingZero(s);
      PaddedIsNumeral("0" + s, value);
    }
  }

  /** The printed number reads as its prefix, year and value, and as nothing else. */
  lemma TextReadsBack(number: Number, prefix: string, year: nat, value: nat)
    ensures Reads(number.Text(), prefix, year, value) <==> number == Number(Series(prefix, year), value)
  {
    var series := number.series;
    DecimalIsNumeral(series.year);
    DecimalIsNumeral(number.value);
    PaddedIsNumeral(Decimal(number.value), number.value);
    assert number.Text() == series.prefix + "-" + Decimal(series.year) + "-" + Padded(Decimal(number.value));
    assert Reads(number.Text(), series.prefix, series.year, number.value);
    if Reads(number.Text(), prefix, year, value) {
      ReadsOneWay(number.Text(), prefix, year, value, series.prefix, series.year, number.value);
    }
  }

  lemma ReadsOneWay(text: string, prefix: string, year: nat, value: nat, prefix': string, year': nat, value': nat)
    requires Reads(text, prefix, year, value) && Reads(text, prefix', year', value')
    ensures prefix == prefix' && year == year' && value == value'
  {
    var y, t :| text == prefix + "-" + y + "-" + t && Numeral(y, 1, year) && Numeral(t, 6, value);
    var y', t' :| text == prefix' + "-" + y' + "-" + t' && Numeral(y', 1, year') && Numeral(t', 6, value');
    LastSeparator(prefix + "-" + y, prefix' + "-" + y', t, t', '-');
    LastSeparator(prefix, prefix', y, y', '-');
  }

  lemma FirstOfTheYear()
    ensures Number(Series("INV", 2026), 1).Text() == "INV-2026-000001"
  {
    YearInDecimal();
    OnePadded();
  }

  lemma YearInDecimal()
    ensures Decimal(2026) == "2026"
  {
    assert Decimal(20) == "20" && Decimal(202) == "202";
  }

  lemma OnePadded()
    ensures Padded(Decimal(1)) == "000001"
  {
    calc {
      Padded(Decimal(1));
    == { assert Decimal(1) == "1" && "0" + "1" == "01"; }
      Padded("01");
    == { assert "0" + "01" == "001"; }
      Padded("001");
    == { assert "0" + "001" == "0001"; }
      Padded("0001");
    == { assert "0" + "0001" == "00001" && "0" + "00001" == "000001"; }
      "000001";
    }
  }

  // ---------------------------------------------------------------------------
  // Transactions
  // ---------------------------------------------------------------------------

  type TxId = nat

  datatype Counter = Idle | Ensured(series: Series) | Locked(series: Series)

  /** An open transaction: its own uncommitted counter values and the numbers it drew. */
  datatype Tx = Tx(at: Counter, values: map<string, nat>, drawn: seq<Number>)

  datatype State = State(
    counters: map<string, nat>,      // committed rows of number_counters
    inserting: map<string, TxId>,    // rows inserted, not committed
    locks: map<string, TxId>,
    open: map<TxId, Tx>,
    issued: seq<Number>)             // numbers whose transaction committed, in commit order

  const INITIAL := State(map[], map[], map[], map[], [])

  datatype Action =
    | Begin(t: TxId)
    | InsertIfAbsent(t: TxId, series: Series)
    | LockAndRead(t: TxId)
    | Increment(t: TxId)
    | Commit(t: TxId)
    | Rollback(t: TxId)

  function Released(held: map<string, TxId>, t: TxId): map<string, TxId> {
    map scope | scope in held && held[scope] != t :: held[scope]
  }

  function Do(s: State, a: Action): Option<State> {
    if a.Begin? then
      if a.t in s.open then None else Some(s.(open := s.open[a.t := Tx(Idle, map[], [])]))
    else if a.t !in s.open then None
    else
      var t, tx := a.t, s.open[a.t];
      match a
      case InsertIfAbsent(_, series) => DoInsert(s, t, tx, series)
      case LockAndRead(_) => if tx.at.Ensured? then DoLock(s, t, tx, tx.at.series) else None
      case Increment(_) => if tx.at.Locked? then DoIncrement(s, t, tx, tx.at.series) else None
      case Commit(_) =>
        if !tx.at.Idle? then None
        else Some(State(s.counters + tx.values, Released(s.inserting, t), Released(s.locks, t),
                        s.open - {t}, s.issued + tx.drawn))
      case Rollback(_) =>
        Some(s.(inserting := Released(s.inserting, t), locks := Released(s.locks, t), open := s.open - {t}))
      case Begin(_) => None
  }

  // INSERT ... ON CONFLICT DO NOTHING
  function DoInsert(s: State, t: TxId, tx: Tx, series: Series): Option<State> {
    var scope := series.Scope();
    if !tx.at.Idle? || (scope in s.inserting && s.inserting[scope] != t) then None
    else if scope in s.counters || scope in s.inserting then
      Some(s.(open := s.open[t := tx.(at := Ensured(series))]))
    else
      Some(s.(inserting := s.inserting[scope := t],
              open := s.open[t := tx.(at := Ensured(series), values := tx.values[scope := 0])]))
  }

  // SELECT ... FOR UPDATE: waits for another's lock; needs a row this transaction can see.
  function DoLock(s: State, t: TxId, tx: Tx, series: Series): Option<State> {
    var scope := series.Scope();
    if scope in s.locks && s.locks[scope] != t then None
    else if scope !in s.counters && scope !in tx.values then None
    else
      var value := if scope in tx.values then tx.values[scope] else s.counters[scope];
      Some(s.(locks := s.locks[scope := t],
              open := s.open[t := tx.(at := Locked(series), values := tx.values[scope := value])]))
  }

  predicate Sees(s: State, t: TxId, scope: string)
    requires t in s.open
  {
    scope in s.counters || scope in s.open[t].values
  }

  function DoIncrement(s: State, t: TxId, tx: Tx, series: Series): Option<State> {
    var scope := series.Scope();
    if scope !in tx.values then None
    else
      var value := tx.values[scope] + 1;
      Some(s.(open := s.open[t := Tx(Idle, tx.values[scope := value], tx.drawn + [Number(series, value)])]))
  }

  function Exec(schedule: seq<Action>): Option<State> {
    if schedule == [] then Some(INITIAL)
    else
      var before := Exec(schedule[..|schedule| - 1]);
      if before.None? then None else Do(before.value, schedule[|schedule| - 1])
  }

  // ---------------------------------------------------------------------------
  // The invariant
  // ---------------------------------------------------------------------------

  /** The values drawn in one scope, in order. */
  function Values(numbers: seq<Number>, scope: string): seq<nat> {
    if numbers == [] then []
    else
      var n := |numbers| - 1;
      Values(numbers[..n], scope) + if numbers[n].series.Scope() == scope then [numbers[n].value] else []
  }

  lemma ValuesOfMore(numbers: seq<Number>, number: Number, scope: string)
    ensures Values(numbers + [number], scope)
            == Values(numbers, scope) + if number.series.Scope() == scope then [number.value] else []
  {
    assert (numbers + [number])[..|numbers|] == numbers;
  }

  lemma {:induction false} ValuesOfSum(a: seq<Number>, b: seq<Number>, scope: string)
    ensures Values(a + b, scope) == Values(a, scope) + Values(b, scope)
  {
    if b == [] {
      assert a + b == a && Values(a, scope) + [] == Values(a, scope);
    } else {
      var init, last := b[..|b| - 1], b[|b| - 1];
      assert b == init + [last];
      Associate(a, init, [last]);
      ValuesOfMore(a + init, last, scope);
      ValuesOfMore(init, last, scope);
      ValuesOfSum(a, init, scope);
      Associate(Values(a, scope), Values(init, scope), if last.series.Scope() == scope then [last.value] else []);
    }
  }

  // low + 1, low + 2, ..., high
  function UpFrom(low: nat, high: nat): (values: seq<nat>)
    requires low <= high
    ensures |values| == high - low && forall i :: 0 <= i < |values| ==> values[i] == low + 1 + i
  {
    if low == high then [] else UpFrom(low, high - 1) + [high]
  }

  function LastValue(s: State, scope: string): nat {
    if scope in s.counters then s.counters[scope] else 0
  }

  ghost predicate ScopeOk(s: State, scope: string) {
    && Values(s.issued, scope) == UpFrom(0, LastValue(s, scope))
    && (scope in s.inserting ==> scope !in s.counters)
  }

  // What a transaction holds in a scope, and what it has drawn there since.
  ghost predicate HoldOk(s: State, t: TxId, scope: string) {
    && (scope in s.inserting && s.inserting[scope] == t ==> t in s.open && scope in s.open[t].values)
    && (scope in s.locks && s.locks[scope] == t ==> t in s.open && scope in s.open[t].values)
    && (t in s.open ==>
          var tx := s.open[t];
          && (tx.at.Ensured? && tx.at.series.Scope() == scope ==> Sees(s, t, scope))
          && (tx.at.Locked? && tx.at.series.Scope() == scope ==> scope in tx.values)
          && (if scope in tx.values then
                && ((scope in s.counters && scope in s.locks && s.locks[scope] == t)
                    || (scope in s.inserting && s.inserting[scope] == t))
                && tx.values[scope] >= LastValue(s, scope)
                && Values(tx.drawn, scope) == UpFrom(LastValue(s, scope), tx.values[scope])
              else Values(tx.drawn, scope) == []))
  }

  ghost predicate Invariant(s: State) {
    (forall scope :: ScopeOk(s, scope)) && forall t, scope :: HoldOk(s, t, scope)
  }

  lemma UpFromSum(low: nat, middle: nat, high: nat)
    requires low <= middle <= high
    ensures UpFrom(low, middle) + UpFrom(middle, high) == UpFrom(low, high)
  {
  }

  lemma CommitKeepsScope(s: State, t: TxId, scope: string)
    requires ScopeOk(s, scope) && HoldOk(s, t, scope) && Do(s, Commit(t)).Some?
    ensures ScopeOk(Do(s, Commit(t)).value, scope)
  {
    var tx := s.open[t];
    var s' := Do(s, Commit(t)).value;
    ValuesOfSum(s.issued, tx.drawn, scope);
    if scope in tx.values {
      UpFromSum(0, LastValue(s, scope), tx.values[scope]);
    } else {
      UpFromSum(0, LastValue(s, scope), LastValue(s, scope));
    }
    assert LastValue(s', scope) == if scope in tx.values then tx.values[scope] else LastValue(s, scope);
  }

  lemma ScopesKept(s: State, a: Action, scope: string)
    requires Invariant(s) && Do(s, a).Some?
    ensures ScopeOk(Do(s, a).value, scope)
  {
    assert ScopeOk(s, scope) && HoldOk(s, a.t, scope);
    if a.Commit? {
      CommitKeepsScope(s, a.t, scope);
    } else {
      var s' := Do(s, a).value;
      assert s'.issued == s.issued && s'.counters == s.counters;
    }
  }

  // A transaction that takes no part in a step keeps what it holds.
  lemma BystanderAtCommit(s: State, other: TxId, t: TxId, scope: string)
    requires ScopeOk(s, scope) && HoldOk(s, t, scope) && HoldOk(s, other, scope)
    requires Do(s, Commit(other)).Some? && t != other
    ensures HoldOk(Do(s, Commit(other)).value, t, scope)
  {
  }

  lemma BystanderAtInsert(s: State, other: TxId, series: Series, t: TxId, scope: string)
    requires HoldOk(s, t, scope) && Do(s, InsertIfAbsent(other, series)).Some? && t != other
    ensures HoldOk(Do(s, InsertIfAbsent(other, series)).value, t, scope)
  {
  }

  lemma BystanderAtLock(s: State, other: TxId, t: TxId, scope: string)
    requires HoldOk(s, t, scope) && Do(s, LockAndRead(other)).Some? && t != other
    ensures HoldOk(Do(s, LockAndRead(other)).value, t, scope)
  {
  }

  lemma BystanderAtRollback(s: State, other: TxId, t: TxId, scope: string)
    requires HoldOk(s, t, scope) && Do(s, Rollback(other)).Some? && t != other
    ensures HoldOk(Do(s, Rollback(other)).value, t, scope)
  {
  }

  lemma BystanderHolds(s: State, a: Action, t: TxId, scope: string)
    requires Invariant(s) && Do(s, a).Some? && t != a.t
    ensures HoldOk(Do(s, a).value, t, scope)
  {
    assert ScopeOk(s, scope) && HoldOk(s, t, scope) && HoldOk(s, a.t, scope);
    match a
    case Commit(other) => BystanderAtCommit(s, other, t, scope);
    case InsertIfAbsent(other, series) => BystanderAtInsert(s, other, series, t, scope);
    case LockAndRead(other) => BystanderAtLock(s, other, t, scope);
    case Rollback(other) => BystanderAtRollback(s, other, t, scope);
    case _ =>
  }

  lemma IncrementHolds(s: State, t: TxId, scope: string)
    requires HoldOk(s, t, scope) && Do(s, Increment(t)).Some?
    ensures HoldOk(Do(s, Increment(t)).value, t, scope)
  {
    var tx := s.open[t];
    var series := tx.at.series;
    var drawn := Number(series, tx.values[series.Scope()] + 1);
    ValuesOfMore(tx.drawn, drawn, scope);
    if series.Scope() == scope {
      DrawnHolds(s, t, scope, Tx(Idle, tx.values[scope := drawn.value], tx.drawn + [drawn]));
    } else {
      assert Values(tx.drawn, scope) + [] == Values(tx.drawn, scope);
    }
  }

  lemma DrawnHolds(s: State, t: TxId, scope: string, tx: Tx)
    requires t in s.open && HoldOk(s, t, scope) && tx.at.Idle? && scope in s.open[t].values && scope in tx.values
    requires tx.values[scope] == s.open[t].values[scope] + 1
    requires Values(tx.drawn, scope) == Values(s.open[t].drawn, scope) + [tx.values[scope]]
    ensures HoldOk(s.(open := s.open[t := tx]), t, scope)
  {
    assert UpFrom(LastValue(s, scope), tx.values[scope]) ==
           UpFrom(LastValue(s, scope), s.open[t].values[scope]) + [tx.values[scope]];
  }

  lemma ActorHolds(s: State, a: Action, scope: string)
    requires Invariant(s) && Do(s, a).Some?
    ensures HoldOk(Do(s, a).value, a.t, scope)
  {
    assert ScopeOk(s, scope) && HoldOk(s, a.t, scope);
    match a
    case Increment(t) => IncrementHolds(s, t, scope);
    case LockAndRead(t) => LockHolds(s, t, scope);
    case InsertIfAbsent(t, series) => InsertHolds(s, t, series, scope);
    case _ =>
  }

  lemma LockHolds(s: State, t: TxId, scope: string)
    requires ScopeOk(s, scope) && HoldOk(s, t, scope) && Do(s, LockAndRead(t)).Some?
    ensures HoldOk(Do(s, LockAndRead(t)).value, t, scope)
  {
  }

  lemma InsertHolds(s: State, t: TxId, series: Series, scope: string)
    requires ScopeOk(s, scope) && HoldOk(s, t, scope) && Do(s, InsertIfAbsent(t, series)).Some?
    ensures HoldOk(Do(s, InsertIfAbsent(t, series)).value, t, scope)
  {
  }

  lemma StepKeepsInvariant(s: State, a: Action)
    requires Invariant(s) && Do(s, a).Some?
    ensures Invariant(Do(s, a).value)
  {
    forall scope ensures ScopeOk(Do(s, a).value, scope) { ScopesKept(s, a, scope); }
    forall t, scope ensures HoldOk(Do(s, a).value, t, scope)
    {
      if t == a.t { ActorHolds(s, a, scope); } else { BystanderHolds(s, a, t, scope); }
    }
  }

  lemma {:induction false} ReachableInvariant(schedule: seq<Action>)
    requires Exec(schedule).Some?
    ensures Invariant(Exec(schedule).value)
  {
    if schedule == [] {
      forall scope ensures Values(INITIAL.issued, scope) == UpFrom(0, LastValue(INITIAL, scope)) {}
    } else {
      var n := |schedule| - 1;
      ReachableInvariant(schedule[..n]);
      StepKeepsInvariant(Exec(schedule[..n]).value, schedule[n]);
    }
  }

  // ---------------------------------------------------------------------------
  // What every interleaving guarantees
  // ---------------------------------------------------------------------------

  /** The committed numbers of a scope are exactly 1, 2, ..., last_value, in commit order. */
  lemma NumberingHasNoGaps(schedule: seq<Action>, series: Series)
    requires Exec(schedule).Some?
    ensures var s := Exec(schedule).value;
            var last := if series.Scope() in s.counters then s.counters[series.Scope()] else 0;
            && |Values(s.issued, series.Scope())| == last
            && forall i :: 0 <= i < last ==> Values(s.issued, series.Scope())[i] == i + 1
  {
    ReachableInvariant(schedule);
    assert ScopeOk(Exec(schedule).value, series.Scope());
  }

  /** What the numbers of a series print, in order. */
  function Texts(numbers: seq<Number>, series: Series): seq<string> {
    if numbers == [] then []
    else
      var n := |numbers| - 1;
      Texts(numbers[..n], series) + if numbers[n].series == series then [numbers[n].Text()] else []
  }

  lemma {:induction false} TextsPrintValues(numbers: seq<Number>, series: Series)
    ensures var texts, values := Texts(numbers, series), Values(numbers, series.Scope());
            && |texts| == |values|
            && forall i :: 0 <= i < |texts| ==> texts[i] == Number(series, values[i]).Text()
  {
    if numbers != [] {
      var n := |numbers| - 1;
      TextsPrintValues(numbers[..n], series);
      if numbers[n].series.Scope() == series.Scope() {
        ScopeIsInjective(numbers[n].series, series);
        assert numbers[n] == Number(series, numbers[n].value);
      }
    }
  }

  /** The i-th committed number of a series, as printed, reads i: no gap and no repetition. */
  lemma PrintedNumbersHaveNoGaps(schedule: seq<Action>, prefix: string, year: nat, i: nat)
    requires Exec(schedule).Some? && i < |Texts(Exec(schedule).value.issued, Series(prefix, year))|
    ensures Reads(Texts(Exec(schedule).value.issued, Series(prefix, year))[i], prefix, year, i + 1)
  {
    var series := Series(prefix, year);
    NumberingHasNoGaps(schedule, series);
    TextsPrintValues(Exec(schedule).value.issued, series);
    TextReadsBack(Number(series, i + 1), prefix, year, i + 1);
  }

  // The three statements of one call, in a row.
  function Draw(s: State, t: TxId, series: Series): Option<State> {
    var one := Do(s, InsertIfAbsent(t, series));
    if one.None? then None
    else
      var two := Do(one.value, LockAndRead(t));
      if two.None? then None else Do(two.value, Increment(t))
  }

  // Another transaction has the series' row inserted or locked.
  predicate Contended(s: State, t: TxId, scope: string) {
    || (scope in s.inserting && s.inserting[scope] != t)
    || (scope in s.locks && s.locks[scope] != t)
  }

  /** A call that nobody holds up draws the next number: one more than the committed numbers of the
      series and this transaction's own are together; what it returns reads so. Committing then
      issues exactly what the transaction drew. */
  lemma CallDrawsNext(schedule: seq<Action>, t: TxId, prefix: string, year: nat) returns (after: State, value: nat)
    requires Exec(schedule).Some?
    requires var s := Exec(schedule).value;
             t in s.open && s.open[t].at.Idle? && !Contended(s, t, Series(prefix, year).Scope())
    ensures var s, series := Exec(schedule).value, Series(prefix, year);
            && Draw(s, t, series) == Some(after) && t in after.open && after.open[t].at.Idle?
            && value == |Texts(s.issued, series)| + |Texts(s.open[t].drawn, series)| + 1
            && after.open[t].drawn == s.open[t].drawn + [Number(series, value)]
            && Reads(Number(series, value).Text(), prefix, year, value)
            && Do(after, Commit(t)).Some? && Do(after, Commit(t)).value.issued == s.issued + after.open[t].drawn
  {
    var s, series := Exec(schedule).value, Series(prefix, year);
    var scope := series.Scope();
    ReachableInvariant(schedule);
    assert ScopeOk(s, scope) && HoldOk(s, t, scope);
    TextsPrintValues(s.issued, series);
    TextsPrintValues(s.open[t].drawn, series);
    value := (if scope in s.open[t].values then s.open[t].values[scope] else LastValue(s, scope)) + 1;
    after := DrawsOneMore(s, t, series, value);
    TextReadsBack(Number(series, value), prefix, year, value);
  }

  lemma DrawsOneMore(s: State, t: TxId, series: Series, value: nat) returns (after: State)
    requires t in s.open && s.open[t].at.Idle? && !Contended(s, t, series.Scope())
    requires ScopeOk(s, series.Scope()) && HoldOk(s, t, series.Scope())
    requires var scope := series.Scope();
             value == (if scope in s.open[t].values then s.open[t].values[scope] else LastValue(s, scope)) + 1
    ensures Draw(s, t, series) == Some(after) && t in after.open && after.open[t].at.Idle?
    ensures after.issued == s.issued && after.open[t].drawn == s.open[t].drawn + [Number(series, value)]
  {
    var scope := series.Scope();
    var one := Do(s, InsertIfAbsent(t, series)).value;
    var tx := one.open[t];
    assert tx.at == Ensured(series) && tx.drawn == s.open[t].drawn && one.issued == s.issued;
    assert if scope in tx.values then tx.values[scope] == value - 1
           else scope in one.counters && one.counters[scope] == value - 1;
    after := LockedDraw(one, t, series, value);
  }

  lemma LockedDraw(s: State, t: TxId, series: Series, value: nat) returns (after: State)
    requires t in s.open && s.open[t].at == Ensured(series)
    requires series.Scope() in s.locks ==> s.locks[series.Scope()] == t
    requires var scope, tx := series.Scope(), s.open[t];
             if scope in tx.values then tx.values[scope] + 1 == value
             else scope in s.counters && s.counters[scope] + 1 == value
    ensures Do(s, LockAndRead(t)).Some? && Do(Do(s, LockAndRead(t)).value, Increment(t)) == Some(after)
    ensures t in after.open && after.open[t].at.Idle?
    ensures after.issued == s.issued && after.open[t].drawn == s.open[t].drawn + [Number(series, value)]
  {
    var two := Do(s, LockAndRead(t)).value;
    assert two.open[t].at == Locked(series) && two.open[t].values[series.Scope()] + 1 == value;
    after := Do(two, Increment(t)).value;
  }

  /** After its insert, a transaction always finds the counter row. */
  lemma CounterRowExists(schedule: seq<Action>, t: TxId)
    requires Exec(schedule).Some?
    requires var s := Exec(schedule).value; t in s.open && s.open[t].at.Ensured?
    ensures var s := Exec(schedule).value; Sees(s, t, s.open[t].at.series.Scope())
  {
    ReachableInvariant(schedule);
    var s := Exec(schedule).value;
    assert HoldOk(s, t, s.open[t].at.series.Scope());
  }

  // The i-th number's value stands in its scope's projection, after those of earlier numbers.
  lemma {:induction false} ValueAt(numbers: seq<Number>, i: nat) returns (at: nat)
    requires i < |numbers|
    ensures var values := Values(numbers, numbers[i].series.Scope());
            at < |values| && values[at] == numbers[i].value
            && at == |Values(numbers[..i], numbers[i].series.Scope())|
    decreases |numbers|
  {
    var n := |numbers| - 1;
    if i == n {
      at := |Values(numbers[..n], numbers[i].series.Scope())|;
    } else {
      at := ValueAt(numbers[..n], i);
      assert numbers[..n][..i] == numbers[..i];
    }
  }

  /** No two committed numbers print the same, across all prefixes and years. */
  lemma CommittedNumbersAreDistinct(schedule: seq<Action>, i: nat, j: nat)
    requires Exec(schedule).Some? && i < j < |Exec(schedule).value.issued|
    ensures Exec(schedule).value.issued[i].Text() != Exec(schedule).value.issued[j].Text()
  {
    var s := Exec(schedule).value;
    var a, b := s.issued[i], s.issued[j];
    ReachableInvariant(schedule);
    if a.Text() == b.Text() {
      TextIsInjective(a, b);
      assert ScopeOk(s, a.series.Scope());
      var atI := ValueAt(s.issued, i);
      var atJ := ValueAt(s.issued, j);
      EarlierValues(s.issued, i, j);
    }
  }

  lemma EarlierValues(numbers: seq<Number>, i: nat, j: nat)
    requires i < j <= |numbers|
    ensures |Values(numbers[..i], numbers[i].series.Scope())| < |Values(numbers[..j], numbers[i].series.Scope())|
  {
    var at := ValueAt(numbers[..j], i);
    assert numbers[..j][..i] == numbers[..i];
  }

  /** A number drawn by an open transaction is held by it alone: not committed, and not
      drawn by another. */
  lemma DrawnNumbersAreHeldAlone(schedule: seq<Action>, t: TxId, i: nat, other: TxId, number: Number)
    requires Exec(schedule).Some?
    requires var s := Exec(schedule).value;
             t in s.open && i < |s.open[t].drawn| && number == s.open[t].drawn[i]
    ensures var s := Exec(schedule).value;
            number !in s.issued && (other in s.open && other != t ==> number !in s.open[other].drawn)
  {
    ReachableInvariant(schedule);
    var s := Exec(schedule).value;
    var scope := number.series.Scope();
    assert ScopeOk(s, scope) && HoldOk(s, t, scope);
    var at := ValueAt(s.open[t].drawn, i);
    if number in s.issued {
      var k :| 0 <= k < |s.issued| && s.issued[k] == number;
      var earlier := ValueAt(s.issued, k);
    }
    if other in s.open && other != t && number in s.open[other].drawn {
      assert HoldOk(s, other, scope);
      var k :| 0 <= k < |s.open[other].drawn| && s.open[other].drawn[k] == number;
      var elsewhere := ValueAt(s.open[other].drawn, k);
    }
  }
}
