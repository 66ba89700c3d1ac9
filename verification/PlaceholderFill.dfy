/**
 `fill` of the document renderer: every `{{ field }}` of a layout replaced in one pass, a
 fragment raw, a value HTML-escaped, anything else refused.

 A value is what `str` makes of it, or None.
 */
module PlaceholderFill {
  import opened Collections
  import opened PythonText
  import opened Wrappers

  type Values = map<string, Option<string>>

  type Fragments = map<string, string>

  // ---------------------------------------------------------------------------
  // The placeholder scan
  // ---------------------------------------------------------------------------

  predicate IsBrace(c: char) {
    c == '{' || c == '}'
  }

  predicate BraceFree(s: string) {
    forall i :: 0 <= i < |s| ==> !IsBrace(s[i])
  }

  // The longest brace-free beginning.
  function Run(s: string): (n: nat)
    ensures n <= |s| && BraceFree(s[..n]) && (n < |s| ==> IsBrace(s[n]))
  {
    if s == "" || IsBrace(s[0]) then 0 else 1 + Run(s[1..])
  }

  /** What `\{\{([^{}]*)\}\}` captures at the start of `s`. */
  function Captured(s: string): (inner: Option<string>)
    ensures inner.Some? ==> BraceFree(inner.value) && Hole(inner.value) <= s
  {
    if !("{{" <= s) then None
    else
      var n := Run(s[2..]);
      if "}}" <= s[2 + n..] then
        assert s == "{{" + s[2..][..n] + s[2 + n..];
        Some(s[2..][..n])
      else None
  }

  function Hole(inner: string): string {
    "{{" + inner + "}}"
  }

  datatype Segment = Text(c: char) | Field(inner: string)

  // The placeholder at the start of `s`, or its first character.
  function First(s: string): Segment
    requires s != ""
  {
    if Captured(s).Some? then Field(Captured(s).value) else Text(s[0])
  }

  function Written(segment: Segment): string {
    match segment
    case Text(c) => [c]
    case Field(inner) => Hole(inner)
  }

  /** The layout cut into characters and placeholders, leftmost first. */
  function Segments(s: string): seq<Segment>
    decreases |s|
  {
    if s == "" then []
    else
      assert Written(First(s)) <= s;
      [First(s)] + Segments(s[|Written(First(s))|..])
  }

  function Source(segments: seq<Segment>): string {
    if segments == [] then ""
    else Written(segments[0]) + Source(segments[1..])
  }

  lemma SegmentsStep(s: string)
    requires s != ""
    ensures Written(First(s)) <= s && Segments(s) == [First(s)] + Segments(s[|Written(First(s))|..])
  {
  }

  lemma PrefixAndRest(head: string, s: string)
    requires head <= s
    ensures s == head + s[|head|..]
  {
  }

  lemma SegmentsCons(s: string, segment: Segment, rest: string)
    requires s != "" && First(s) == segment && s == Written(segment) + rest
    ensures Segments(s) == [segment] + Segments(rest)
  {
    assert s[|Written(segment)|..] == rest;
  }

  lemma SourceOfMore(segment: Segment, rest: seq<Segment>)
    ensures Source([segment] + rest) == Written(segment) + Source(rest)
  {
    assert ([segment] + rest)[1..] == rest;
  }

  /** Cutting loses nothing. */
  lemma {:induction false} SegmentsAreSource(s: string)
    ensures Source(Segments(s)) == s
    decreases |s|
  {
    if s == "" {
    } else {
      SegmentsStep(s);
      PrefixAndRest(Written(First(s)), s);
      SegmentsAreSource(s[|Written(First(s))|..]);
      SourceOfMore(First(s), Segments(s[|Written(First(s))|..]));
    }
  }

  // A brace ahead of a run stops it, whatever follows.
  lemma {:induction false} RunBeforeBrace(a: string, b: string)
    requires b != "" && IsBrace(b[0])
    ensures Run(a + b) == Run(a)
  {
    if a != "" && !IsBrace(a[0]) {
      assert (a + b)[1..] == a[1..] + b;
      RunBeforeBrace(a[1..], b);
    }
  }

  lemma CloseBeforeOpen(a: string, b: string)
    requires b != "" && b[0] == '{'
    ensures "}}" <= a + b <==> "}}" <= a
  {
    if |a| == 1 { assert (a + b)[1] == '{'; }
    if |a| == 0 { assert (a + b)[0] == '{'; }
    if |a| >= 2 { assert (a + b)[0] == a[0] && (a + b)[1] == a[1]; }
  }

  // An opening brace never completes a placeholder begun before it.
  lemma CapturedBeforeHole(a: string, b: string)
    requires a != "" && |b| >= 2 && b[0] == '{' && b[1] == '{'
    ensures Captured(a + b) == Captured(a)
  {
    var s := a + b;
    if |a| == 1 {
      assert s[0] == a[0] && s[1] == '{' && s[2] == '{';
      if s[0] == '{' { assert s[2..][0] == '{' && Run(s[2..]) == 0 && s[2..][0] != '}'; }
    } else {
      assert s[2..] == a[2..] + b;
      RunBeforeBrace(a[2..], b);
      var n := Run(a[2..]);
      assert s[2 + n..] == a[2 + n..] + b;
      CloseBeforeOpen(a[2 + n..], b);
      assert s[2..][..n] == a[2..][..n];
      assert "{{" <= s <==> "{{" <= a;
    }
  }

  lemma FirstBeforeHole(a: string, b: string)
    requires a != "" && |b| >= 2 && b[0] == '{' && b[1] == '{'
    ensures First(a + b) == First(a) && Written(First(a)) <= a
  {
    CapturedBeforeHole(a, b);
  }

  lemma CapturedHole(inner: string, b: string)
    requires BraceFree(inner)
    ensures Captured(Hole(inner) + b) == Some(inner)
  {
    var s := Hole(inner) + b;
    var tail := "}}" + b;
    assert s == "{{" + (inner + tail) && s[2..] == inner + tail;
    RunBeforeBrace(inner, tail);
    RunOfBraceFree(inner);
    assert s[2 + |inner|..] == tail;
  }

  lemma {:induction false} RunOfBraceFree(s: string)
    requires BraceFree(s)
    ensures Run(s) == |s|
  {
    if s == "" {
    } else {
      RunOfBraceFree(s[1..]);
    }
  }

  // Two opening braces start afresh.
  lemma {:induction false} SegmentsBeforeHole(a: string, tail: string)
    requires |tail| >= 2 && tail[0] == '{' && tail[1] == '{'
    ensures Segments(a + tail) == Segments(a) + Segments(tail)
    decreases |a|
  {
    if a == "" {
      assert a + tail == tail;
    } else {
      FirstBeforeHole(a, tail);
      var segment := First(a);
      var rest := a[|Written(segment)|..];
      PrefixAndRest(Written(segment), a);
      Associate(Written(segment), rest, tail);
      SegmentsBeforeHole(rest, tail);
      SegmentsCons(a, segment, rest);
      SegmentsCons(a + tail, segment, rest + tail);
      Associate([segment], Segments(rest), Segments(tail));
    }
  }

  /** A placeholder is found wherever it stands, and what is around it is cut as if it
      were alone. */
  lemma HolesAreIndependent(a: string, inner: string, b: string)
    requires BraceFree(inner)
    ensures Segments(a + Hole(inner) + b) == Segments(a) + [Field(inner)] + Segments(b)
  {
    Associate(a, Hole(inner), b);
    SegmentsBeforeHole(a, Hole(inner) + b);
    SegmentsOfHole(inner, b);
    Associate(Segments(a), [Field(inner)], Segments(b));
  }

  lemma SegmentsOfHole(inner: string, b: string)
    requires BraceFree(inner)
    ensures Segments(Hole(inner) + b) == [Field(inner)] + Segments(b)
  {
    CapturedHole(inner, b);
    SegmentsStep(Hole(inner) + b);
    assert (Hole(inner) + b)[|Hole(inner)|..] == b;
  }

  // ---------------------------------------------------------------------------
  // Escaping
  // ---------------------------------------------------------------------------

  // `html.escape` of one character.
  function Entity(c: char): string {
    match c
    case '&' => "&amp;"
    case '<' => "&lt;"
    case '>' => "&gt;"
    case '"' => "&quot;"
    case '\'' => "&#x27;"
    case _ => [c]
  }

  function Escape(s: string): string {
    if s == "" then "" else Entity(s[0]) + Escape(s[1..])
  }

  /** What an HTML reader makes of the five entities. */
  function Decoded(s: string): string
    decreases |s|
  {
    if s == "" then ""
    else if s[0] != '&' then [s[0]] + Decoded(s[1..])
    else if "&amp;" <= s then "&" + Decoded(s[5..])
    else if "&lt;" <= s then "<" + Decoded(s[4..])
    else if "&gt;" <= s then ">" + Decoded(s[4..])
    else if "&quot;" <= s then "\"" + Decoded(s[6..])
    else if "&#x27;" <= s then "'" + Decoded(s[6..])
    else [s[0]] + Decoded(s[1..])
  }

  lemma DecodedEntity(c: char, rest: string)
    ensures Decoded(Entity(c) + rest) == [c] + Decoded(rest)
  {
    var s := Entity(c) + rest;
    assert s[|Entity(c)|..] == rest;
    if Entity(c) != [c] {
      EntityIsFirst(c, rest);
    }
  }

  // No other entity begins as this one does.
  lemma EntityIsFirst(c: char, rest: string)
    requires Entity(c) != [c]
    ensures var s := Entity(c) + rest;
            && s[0] == '&' && |Entity(c)| <= |s|
            && ("&amp;" <= s <==> c == '&') && ("&lt;" <= s <==> c == '<') && ("&gt;" <= s <==> c == '>')
            && ("&quot;" <= s <==> c == '"') && ("&#x27;" <= s <==> c == '\'')
  {
    var s := Entity(c) + rest;
    assert s[0] == Entity(c)[0] && s[1] == Entity(c)[1];
    assert Entity(c) <= s;
  }

  lemma DecodedStep(c: char, escaped: string, plain: string, rest: string)
    requires Decoded(escaped + rest) == plain + Decoded(rest)
    ensures Decoded(Entity(c) + escaped + rest) == [c] + plain + Decoded(rest)
  {
    DecodedEntity(c, escaped + rest);
    Associate(Entity(c), escaped, rest);
    Associate([c], plain, Decoded(rest));
  }

  /** Reading an escaped value, wherever it stands, gives the value back. */
  lemma {:induction false} DecodedEscape(v: string, rest: string)
    ensures Decoded(Escape(v) + rest) == v + Decoded(rest)
  {
    if v == "" {
      assert Escape(v) + rest == rest;
    } else {
      DecodedEscape(v[1..], rest);
      DecodedStep(v[0], Escape(v[1..]), v[1..], rest);
      assert [v[0]] + v[1..] == v;
    }
  }

  /** An escaped value opens no tag and closes no attribute. */
  lemma {:induction false} EscapeHasNoMarkup(v: string)
    ensures forall i :: 0 <= i < |Escape(v)| ==> Escape(v)[i] !in {'<', '>', '"', '\''}
  {
    if v == "" {
    } else {
      EscapeHasNoMarkup(v[1..]);
    }
  }

  // ---------------------------------------------------------------------------
  // Filling
  // ---------------------------------------------------------------------------

  // `^[a-z][a-z0-9_]*$`, of a name already stripped.
  predicate IsFieldName(name: string) {
    && name != ""
    && 'a' <= name[0] <= 'z'
    && forall i :: 1 <= i < |name| ==> 'a' <= name[i] <= 'z' || '0' <= name[i] <= '9' || name[i] == '_'
  }

  /** What stands for a placeholder; None when nothing may. */
  function Filling(values: Values, fragments: Fragments, inner: string): Option<string> {
    var name := Strip(inner);
    if !IsFieldName(name) then None
    else if name in fragments then Some(fragments[name])
    else if name in values && values[name].Some? then Some(Escape(values[name].value))
    else None
  }

  function Offender(inner: string): string {
    if Strip(inner) != "" then Strip(inner) else Hole(inner)
  }

  function SegmentFilled(values: Values, fragments: Fragments, segment: Segment): string {
    match segment
    case Text(c) => [c]
    case Field(inner) => if Filling(values, fragments, inner).Some? then Filling(values, fragments, inner).value else ""
  }

  function Filled(values: Values, fragments: Fragments, segments: seq<Segment>): string {
    if segments == [] then ""
    else Filled(values, fragments, segments[..|segments| - 1])
         + SegmentFilled(values, fragments, segments[|segments| - 1])
  }

  function Offenders(values: Values, fragments: Fragments, segments: seq<Segment>): set<string> {
    set s | s in segments && s.Field? && Filling(values, fragments, s.inner).None? :: Offender(s.inner)
  }

  function FillOf(values: Values, fragments: Fragments, layout: string): Result<string, set<string>> {
    var offenders := Offenders(values, fragments, Segments(layout));
    if offenders == {} then Ok(Filled(values, fragments, Segments(layout))) else Err(offenders)
  }

  /** The single pass of `re.sub`. */
  method Fill(values: Values, fragments: Fragments, layout: string) returns (result: Result<string, set<string>>)
    ensures result == FillOf(values, fragments, layout)
  {
    var i, filled := 0, "";
    var unfilled: set<string> := {};
    ghost var done: seq<Segment> := [];
    while i < |layout|
      invariant i <= |layout| && Segments(layout) == done + Segments(layout[i..])
      invariant filled == Filled(values, fragments, done) && unfilled == Offenders(values, fragments, done)
    {
      var segment := First(layout[i..]);
      var next := i + |Written(segment)|;
      StepAt(layout, i, next);
      FilledOneMore(values, fragments, done, segment);
      OffendersOneMore(values, fragments, done, segment);
      Associate(done, [segment], Segments(layout[next..]));
      match segment {
        case Text(c) => filled := filled + [c];
        case Field(inner) => filled, unfilled := Substitute(values, fragments, inner, filled, unfilled);
      }
      done := done + [segment];
      i := next;
    }
    assert done + [] == done;
    return if unfilled == {} then Ok(filled) else Err(unfilled);
  }

  // `_substitute`, and what `re.sub` does with its result.
  method Substitute(values: Values, fragments: Fragments, inner: string, filled0: string, unfilled0: set<string>)
    returns (filled: string, unfilled: set<string>)
    ensures filled == filled0 + SegmentFilled(values, fragments, Field(inner))
    ensures unfilled == unfilled0 + if Filling(values, fragments, inner).None? then {Offender(inner)} else {}
  {
    var filling := Filling(values, fragments, inner);
    if filling.Some? {
      return filled0 + filling.value, unfilled0;
    }
    return filled0, unfilled0 + {Offender(inner)};
  }

  lemma StepAt(layout: string, i: nat, next: int)
    requires i < |layout| && next == i + |Written(First(layout[i..]))|
    ensures i < next <= |layout| && Segments(layout[i..]) == [First(layout[i..])] + Segments(layout[next..])
  {
    SegmentsStep(layout[i..]);
    assert layout[i..][next - i..] == layout[next..];
  }

  lemma FilledOneMore(values: Values, fragments: Fragments, done: seq<Segment>, segment: Segment)
    ensures Filled(values, fragments, done + [segment]) ==
            Filled(values, fragments, done) + SegmentFilled(values, fragments, segment)
  {
    assert (done + [segment])[..|done|] == done;
  }

  lemma OffendersOneMore(values: Values, fragments: Fragments, done: seq<Segment>, segment: Segment)
    ensures Offenders(values, fragments, done + [segment]) == Offenders(values, fragments, done) +
              if segment.Field? && Filling(values, fragments, segment.inner).None?
              then {Offender(segment.inner)} else {}
  {
  }

  /** The text `inner` stands between double braces somewhere in the layout. */
  predicate StandsIn(layout: string, a: string, inner: string, b: string) {
    layout == a + ("{{" + inner + "}}") + b && '{' !in inner && '}' !in inner
  }

  // A small letter, then small letters, digits and underscores, with a fragment or a value.
  predicate IsBoundName(values: Values, fragments: Fragments, name: string) {
    && name != "" && 'a' <= name[0] <= 'z'
    && (forall i :: 0 <= i < |name| ==> 'a' <= name[i] <= 'z' || '0' <= name[i] <= '9' || name[i] == '_')
    && (name in fragments || (name in values && values[name].Some?))
  }

  /** White space aside, a valid name that has a fragment, or a value other than None. */
  ghost predicate IsBound(values: Values, fragments: Fragments, inner: string) {
    exists name :: Stripped(inner, name) && IsBoundName(values, fragments, name)
  }

  /** How an unfilled placeholder is reported: by its text without the white space around it, or
      whole when there is nothing else. */
  ghost predicate ReportedAs(inner: string, name: string) {
    exists text :: Stripped(inner, text) && name == if text != "" then text else "{{" + inner + "}}"
  }

  lemma ReportIsOffender(inner: string, name: string)
    ensures ReportedAs(inner, name) <==> name == Offender(inner)
  {
    StripIsExact(inner, Strip(inner));
    if text :| Stripped(inner, text) && name == if text != "" then text else "{{" + inner + "}}" {
      StripIsExact(inner, text);
    }
  }

  // Every placeholder of the scan is text of the layout.
  lemma {:induction false} FieldStandsIn(s: string, inner: string) returns (a: string, b: string)
    requires Field(inner) in Segments(s)
    ensures StandsIn(s, a, inner, b)
    decreases |s|
  {
    SegmentsStep(s);
    var segment := First(s);
    var head, rest := Written(segment), s[|Written(segment)|..];
    PrefixAndRest(head, s);
    if segment == Field(inner) {
      FieldIsBraceFree(s);
      a, b := "", rest;
    } else {
      assert Field(inner) in Segments(rest);
      a, b := FieldStandsIn(rest, inner);
      StandsInLonger(head, rest, a, inner, b);
      a := head + a;
    }
  }

  lemma FieldIsBraceFree(s: string)
    requires s != "" && First(s).Field?
    ensures BraceFree(First(s).inner)
  {
  }

  lemma StandsInLonger(head: string, rest: string, a: string, inner: string, b: string)
    requires StandsIn(rest, a, inner, b)
    ensures StandsIn(head + rest, head + a, inner, b)
  {
    Associate(head, a, Hole(inner));
    Associate(head, a + Hole(inner), b);
  }

  lemma StandingIsField(layout: string, a: string, inner: string, b: string)
    requires StandsIn(layout, a, inner, b)
    ensures Field(inner) in Segments(layout)
  {
    HolesAreIndependent(a, inner, b);
  }

  lemma BoundIsFilled(values: Values, fragments: Fragments, inner: string)
    ensures IsBound(values, fragments, inner) <==> Filling(values, fragments, inner).Some?
  {
    var name := Strip(inner);
    StripIsExact(inner, name);
    BoundName(values, fragments, name);
    if other :| Stripped(inner, other) && IsBoundName(values, fragments, other) {
      StripIsExact(inner, other);
    }
  }

  lemma BoundName(values: Values, fragments: Fragments, name: string)
    ensures IsBoundName(values, fragments, name) <==>
            IsFieldName(name) && (name in fragments || (name in values && values[name].Some?))
  {
  }

  /** A text between double braces somewhere in the layout that is not bound is reported so. */
  ghost predicate IsOffending(values: Values, fragments: Fragments, layout: string, name: string) {
    exists a, inner, b ::
      StandsIn(layout, a, inner, b) && !IsBound(values, fragments, inner) && ReportedAs(inner, name)
  }

  /** The reported names are exactly the offenders of the layout's text. */
  lemma OffendersStandInLayout(values: Values, fragments: Fragments, layout: string, name: string)
    ensures name in Offenders(values, fragments, Segments(layout)) <==>
            IsOffending(values, fragments, layout, name)
  {
    if name in Offenders(values, fragments, Segments(layout)) {
      var s :| s in Segments(layout) && s.Field? && Filling(values, fragments, s.inner).None?
               && name == Offender(s.inner);
      var a, b := FieldStandsIn(layout, s.inner);
      BoundIsFilled(values, fragments, s.inner);
      ReportIsOffender(s.inner, name);
    }
    if a, inner, b :| StandsIn(layout, a, inner, b) && !IsBound(values, fragments, inner) && ReportedAs(inner, name) {
      StandingIsField(layout, a, inner, b);
      BoundIsFilled(values, fragments, inner);
      ReportIsOffender(inner, name);
    }
  }

  /** Filling succeeds if and only if whatever stands between double braces in the layout is a
      bound name, and otherwise reports exactly the texts that are not. */
  lemma SucceedsIffAllBound(values: Values, fragments: Fragments, layout: string)
    ensures FillOf(values, fragments, layout).Ok? <==>
            forall a, inner, b :: StandsIn(layout, a, inner, b) ==> IsBound(values, fragments, inner)
    ensures FillOf(values, fragments, layout).Err? ==>
              forall name :: name in FillOf(values, fragments, layout).error <==>
                             IsOffending(values, fragments, layout, name)
  {
    forall name
      ensures name in Offenders(values, fragments, Segments(layout)) <==> IsOffending(values, fragments, layout, name)
    {
      OffendersStandInLayout(values, fragments, layout, name);
    }
    AllBoundOrOffending(values, fragments, layout);
  }

  lemma AllBoundOrOffending(values: Values, fragments: Fragments, layout: string)
    ensures (forall a, inner, b :: StandsIn(layout, a, inner, b) ==> IsBound(values, fragments, inner)) <==>
            forall name :: !IsOffending(values, fragments, layout, name)
  {
    if a, inner, b :| StandsIn(layout, a, inner, b) && !IsBound(values, fragments, inner) {
      ReportIsOffender(inner, Offender(inner));
      assert IsOffending(values, fragments, layout, Offender(inner));
    }
  }

  lemma {:induction false} SourceOfSum(a: seq<Segment>, segment: Segment)
    ensures Source(a + [segment]) == Source(a) + Written(segment)
  {
    if a == [] {
      assert a + [segment] == [segment] && [segment][1..] == [];
      assert "" + Written(segment) == Written(segment) == Written(segment) + "";
    } else {
      SourceOfSum(a[1..], segment);
      assert (a + [segment])[1..] == a[1..] + [segment];
      Associate(Written(a[0]), Source(a[1..]), Written(segment));
    }
  }

  lemma {:induction false} FilledText(values: Values, fragments: Fragments, segments: seq<Segment>)
    requires forall s :: s in segments ==> s.Text?
    ensures Filled(values, fragments, segments) == Source(segments)
  {
    if segments != [] {
      var init, last := segments[..|segments| - 1], segments[|segments| - 1];
      FilledText(values, fragments, init);
      assert segments == init + [last] && last in segments;
      SourceOfSum(init, last);
    }
  }

  /** Where nothing stands between double braces, the layout is printed as it is. */
  lemma PlainTextStays(values: Values, fragments: Fragments, layout: string)
    requires forall a, inner, b :: !StandsIn(layout, a, inner, b)
    ensures FillOf(values, fragments, layout) == Ok(layout)
  {
    forall s | s in Segments(layout) ensures s.Text?
    {
      if s.Field? { var a, b := FieldStandsIn(layout, s.inner); }
    }
    FilledText(values, fragments, Segments(layout));
    SegmentsAreSource(layout);
    assert Offenders(values, fragments, Segments(layout)) == {};
  }

  lemma {:induction false} FilledOfSum(values: Values, fragments: Fragments, a: seq<Segment>, b: seq<Segment>)
    ensures Filled(values, fragments, a + b) == Filled(values, fragments, a) + Filled(values, fragments, b)
  {
    if b == [] {
      assert a + b == a;
    } else {
      assert (a + b)[..|a + b| - 1] == a + b[..|b| - 1];
      FilledOfSum(values, fragments, a, b[..|b| - 1]);
    }
  }

  lemma OffendersOfSum(values: Values, fragments: Fragments, a: seq<Segment>, b: seq<Segment>)
    ensures Offenders(values, fragments, a + b) == Offenders(values, fragments, a) + Offenders(values, fragments, b)
  {
  }

  lemma OffendersOfOne(values: Values, fragments: Fragments, inner: string)
    ensures Offenders(values, fragments, [Field(inner)]) == {} <==> Filling(values, fragments, inner).Some?
  {
    var hole := [Field(inner)];
    assert hole[0] in hole;
    assert Filling(values, fragments, inner).None? ==> Offender(inner) in Offenders(values, fragments, hole);
  }

  /** One placeholder among others: its filling goes in as it is, never looked at again, so
      placeholder text inside a value is printed and the rest does not notice. */
  lemma FillIsSinglePass(values: Values, fragments: Fragments, a: string, inner: string, b: string)
    requires '{' !in inner && '}' !in inner
    ensures var whole := FillOf(values, fragments, a + ("{{" + inner + "}}") + b);
            var left, filling, right :=
              FillOf(values, fragments, a), Filling(values, fragments, inner), FillOf(values, fragments, b);
            && (whole.Ok? <==> left.Ok? && filling.Some? && right.Ok?)
            && (whole.Ok? ==> whole.value == left.value + filling.value + right.value)
  {
    HolesAreIndependent(a, inner, b);
    FilledAround(values, fragments, Segments(a), inner, Segments(b));
    OffendersAround(values, fragments, Segments(a), inner, Segments(b));
  }

  lemma FilledAround(values: Values, fragments: Fragments, a: seq<Segment>, inner: string, b: seq<Segment>)
    ensures Filled(values, fragments, a + [Field(inner)] + b) ==
            Filled(values, fragments, a) + SegmentFilled(values, fragments, Field(inner)) + Filled(values, fragments, b)
  {
    FilledOfSum(values, fragments, a + [Field(inner)], b);
    assert (a + [Field(inner)])[..|a|] == a;
  }

  lemma OffendersAround(values: Values, fragments: Fragments, a: seq<Segment>, inner: string, b: seq<Segment>)
    ensures Offenders(values, fragments, a + [Field(inner)] + b) == {} <==>
            && Offenders(values, fragments, a) == {} && Filling(values, fragments, inner).Some?
            && Offenders(values, fragments, b) == {}
  {
    OffendersOfSum(values, fragments, a + [Field(inner)], b);
    OffendersOfSum(values, fragments, a, [Field(inner)]);
    OffendersOfOne(values, fragments, inner);
  }

  /** A fragment stands as it is, and wins over a value of the same name. */
  lemma FragmentStandsRaw(values: Values, fragments: Fragments, a: string, inner: string, b: string)
    requires BraceFree(inner) && IsFieldName(Strip(inner)) && Strip(inner) in fragments
    requires FillOf(values, fragments, a).Ok? && FillOf(values, fragments, b).Ok?
    ensures FillOf(values, fragments, a + Hole(inner) + b) ==
            Ok(FillOf(values, fragments, a).value + fragments[Strip(inner)] + FillOf(values, fragments, b).value)
  {
    FillIsSinglePass(values, fragments, a, inner, b);
  }

  /** A value's span reads back as the value. */
  lemma ValueReadsBack(values: Values, fragments: Fragments, a: string, inner: string, b: string)
    returns (before: string, after: string)
    requires BraceFree(inner) && IsFieldName(Strip(inner)) && Strip(inner) !in fragments
    requires Strip(inner) in values && values[Strip(inner)].Some?
    requires FillOf(values, fragments, a + Hole(inner) + b).Ok?
    ensures FillOf(values, fragments, a) == Ok(before) && FillOf(values, fragments, b) == Ok(after)
    ensures var filled, value := FillOf(values, fragments, a + Hole(inner) + b).value, values[Strip(inner)].value;
            before <= filled && Decoded(filled[|before|..]) == value + Decoded(after)
  {
    FillIsSinglePass(values, fragments, a, inner, b);
    before, after := FillOf(values, fragments, a).value, FillOf(values, fragments, b).value;
    var escaped := Escape(values[Strip(inner)].value);
    DecodedEscape(values[Strip(inner)].value, after);
    Associate(before, escaped, after);
    assert (before + (escaped + after))[|before|..] == escaped + after;
  }
}
