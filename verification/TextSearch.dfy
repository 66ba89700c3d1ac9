/**
 `text_filter`: the needle is escaped, wrapped in `%`, folded together with the column
 and handed to ILIKE.

 `Fold` stands for what PostgreSQL does to both sides: `unaccent`, then the lower-casing
 of ILIKE, one character at a time. The matcher is LIKE as section 9.7.1 of the
 PostgreSQL documentation describes it.
 */
module TextSearch {
  import opened Collections
  import opened Wrappers

  type Folding = char -> string

  const BACKSLASH := '\\'

  predicate IsMeta(c: char) {
    c == BACKSLASH || c == '%' || c == '_'
  }

  // ---------------------------------------------------------------------------
  // Escaping
  // ---------------------------------------------------------------------------

  // `str.replace` of one character.
  function Replaced(s: string, c: char, sub: string): string {
    if s == "" then "" else (if s[0] == c then sub else [s[0]]) + Replaced(s[1..], c, sub)
  }

  function Escaped(s: string): string {
    Replaced(Replaced(Replaced(s, BACKSLASH, [BACKSLASH, BACKSLASH]), '%', [BACKSLASH, '%']), '_', [BACKSLASH, '_'])
  }

  /** Every metacharacter preceded by a backslash. */
  function Literal(s: string): string {
    if s == "" then "" else (if IsMeta(s[0]) then [BACKSLASH, s[0]] else [s[0]]) + Literal(s[1..])
  }

  lemma {:induction false} ReplacedOfSum(a: string, b: string, c: char, sub: string)
    ensures Replaced(a + b, c, sub) == Replaced(a, c, sub) + Replaced(b, c, sub)
  {
    if a == "" {
      assert a + b == b;
    } else {
      assert (a + b)[1..] == a[1..] + b;
      ReplacedOfSum(a[1..], b, c, sub);
    }
  }

  lemma ReplacedOfTwo(c: char, sub: string, d: char, e: char)
    ensures Replaced([d], c, sub) == if d == c then sub else [d]
    ensures Replaced([d, e], c, sub) == (if d == c then sub else [d]) + (if e == c then sub else [e])
  {
    assert [d, e][1..] == [e] && [e][1..] == "" && [d][1..] == "";
  }

  lemma EscapedOfOne(c: char)
    ensures Escaped([c]) == Literal([c])
  {
    var one := Replaced([c], BACKSLASH, [BACKSLASH, BACKSLASH]);
    ReplacedOfTwo(BACKSLASH, [BACKSLASH, BACKSLASH], c, c);
    ReplacedOfTwo('%', [BACKSLASH, '%'], c, c);
    ReplacedOfTwo('%', [BACKSLASH, '%'], BACKSLASH, BACKSLASH);
    var two := Replaced(one, '%', [BACKSLASH, '%']);
    assert two == if c == BACKSLASH then [BACKSLASH, BACKSLASH] else if c == '%' then [BACKSLASH, '%'] else [c];
    ReplacedOfTwo('_', [BACKSLASH, '_'], c, c);
    ReplacedOfTwo('_', [BACKSLASH, '_'], BACKSLASH, BACKSLASH);
    ReplacedOfTwo('_', [BACKSLASH, '_'], BACKSLASH, '%');
    assert [c][1..] == "";
  }

  /** The three replacements in a row escape each character once. */
  lemma {:induction false} EscapedIsLiteral(s: string)
    ensures Escaped(s) == Literal(s)
  {
    if s == "" {
    } else {
      assert s == [s[0]] + s[1..];
      var b := [BACKSLASH, BACKSLASH];
      ReplacedOfSum([s[0]], s[1..], BACKSLASH, b);
      var one, rest := Replaced([s[0]], BACKSLASH, b), Replaced(s[1..], BACKSLASH, b);
      ReplacedOfSum(one, rest, '%', [BACKSLASH, '%']);
      ReplacedOfSum(Replaced(one, '%', [BACKSLASH, '%']), Replaced(rest, '%', [BACKSLASH, '%']), '_', [BACKSLASH, '_']);
      EscapedOfOne(s[0]);
      EscapedIsLiteral(s[1..]);
      assert [s[0]][1..] == "";
    }
  }

  // ---------------------------------------------------------------------------
  // LIKE
  // ---------------------------------------------------------------------------

  /** A pattern that ends in a lone backslash is an error: it matches nothing. */
  predicate Like(t: string, p: string)
    decreases |p|, |t|
  {
    if p == "" then t == ""
    else if p[0] == '%' then Like(t, p[1..]) || (t != "" && Like(t[1..], p))
    else if t == "" then false
    else if p[0] == '_' then Like(t[1..], p[1..])
    else if p[0] == BACKSLASH then |p| >= 2 && t[0] == p[1] && Like(t[1..], p[2..])
    else t[0] == p[0] && Like(t[1..], p[1..])
  }

  predicate Contains(t: string, needle: string) {
    exists k :: 0 <= k <= |t| && needle <= t[k..]
  }

  lemma {:induction false} LikeOfPercent(t: string, p: string)
    ensures Like(t, ['%'] + p) <==> exists k :: 0 <= k <= |t| && Like(t[k..], p)
  {
    assert (['%'] + p)[1..] == p && t[0..] == t;
    if t != "" {
      LikeOfPercent(t[1..], p);
      assert forall k :: 0 <= k <= |t| - 1 ==> t[1..][k..] == t[k + 1..];
      if k :| 0 <= k <= |t| && Like(t[k..], p) && k > 0 { assert t[1..][k - 1..] == t[k..]; }
    }
  }

  lemma LikeOfEscaped(t: string, c: char, q: string)
    requires IsMeta(c)
    ensures Like(t, [BACKSLASH, c] + q) <==> t != "" && t[0] == c && Like(t[1..], q)
  {
    assert ([BACKSLASH, c] + q)[2..] == q;
  }

  lemma LikeOfPlain(t: string, c: char, q: string)
    requires !IsMeta(c)
    ensures Like(t, [c] + q) <==> t != "" && t[0] == c && Like(t[1..], q)
  {
    assert ([c] + q)[1..] == q;
  }

  lemma PrefixUnfolds(s: string, t: string)
    requires s != ""
    ensures s <= t <==> t != "" && t[0] == s[0] && s[1..] <= t[1..]
    ensures s <= t ==> t[1..][|s| - 1..] == t[|s|..]
  {
    if t != "" && t[0] == s[0] && s[1..] <= t[1..] {
      assert s == [s[0]] + s[1..] && t == [t[0]] + t[1..];
    }
  }

  lemma {:induction false} LikeOfLiteral(t: string, s: string, p: string)
    ensures Like(t, Literal(s) + p) <==> s <= t && Like(t[|s|..], p)
  {
    if s == "" {
      assert Literal(s) + p == p && t[0..] == t;
    } else {
      var q := Literal(s[1..]) + p;
      PrefixUnfolds(s, t);
      if IsMeta(s[0]) {
        Associate([BACKSLASH, s[0]], Literal(s[1..]), p);
        LikeOfEscaped(t, s[0], q);
      } else {
        Associate([s[0]], Literal(s[1..]), p);
        LikeOfPlain(t, s[0], q);
      }
      if t != "" { LikeOfLiteral(t[1..], s[1..], p); }
    }
  }

  /** `%needle%`, escaped, matches exactly the texts that contain the needle. */
  lemma LikeMeansContains(t: string, needle: string)
    ensures Like(t, ['%'] + Literal(needle) + ['%']) <==> Contains(t, needle)
  {
    var tail := Literal(needle) + ['%'];
    assert ['%'] + Literal(needle) + ['%'] == ['%'] + tail;
    LikeOfPercent(t, tail);
    forall k | 0 <= k <= |t| ensures Like(t[k..], tail) <==> needle <= t[k..]
    {
      LikeOfLiteral(t[k..], needle, ['%']);
      if needle <= t[k..] { PercentMatchesAll(t[k..][|needle|..]); }
    }
  }

  lemma PercentMatchesAll(t: string)
    ensures Like(t, ['%'])
  {
    LikeOfPercent(t, "");
    assert ['%'] + "" == ['%'] && t[|t|..] == "";
  }

  // ---------------------------------------------------------------------------
  // Folding
  // ---------------------------------------------------------------------------

  function Fold(f: Folding, s: string): string {
    if s == "" then "" else f(s[0]) + Fold(f, s[1..])
  }

  /** Neither `unaccent` nor lower-casing touches a metacharacter. */
  ghost predicate KeepsMeta(f: Folding) {
    forall c :: IsMeta(c) ==> f(c) == [c]
  }

  /** What folding writes is folded: folding again leaves it as it is. */
  ghost predicate Settles(f: Folding) {
    forall c, i :: 0 <= i < |f(c)| ==> f(f(c)[i]) == [f(c)[i]]
  }

  predicate Folded(f: Folding, t: string) {
    forall i :: 0 <= i < |t| ==> f(t[i]) == [t[i]]
  }

  predicate NoMeta(s: string) {
    forall i :: 0 <= i < |s| ==> !IsMeta(s[i])
  }

  /** No character of the needle folds into a metacharacter. */
  predicate Quiet(f: Folding, needle: string) {
    forall i :: 0 <= i < |needle| ==> IsMeta(needle[i]) || NoMeta(f(needle[i]))
  }

  function Pattern(needle: string): string {
    ['%'] + Escaped(needle) + ['%']
  }

  // A NULL column is never a hit.
  predicate TextFilter(f: Folding, needle: string, columns: seq<Option<string>>) {
    exists i :: 0 <= i < |columns| && columns[i].Some? && Like(Fold(f, columns[i].value), Fold(f, Pattern(needle)))
  }

  lemma {:induction false} FoldOfSum(f: Folding, a: string, b: string)
    ensures Fold(f, a + b) == Fold(f, a) + Fold(f, b)
  {
    if a == "" {
      assert a + b == b;
    } else {
      assert (a + b)[1..] == a[1..] + b;
      FoldOfSum(f, a[1..], b);
    }
  }

  lemma {:induction false} LiteralOfPlain(s: string)
    requires NoMeta(s)
    ensures Literal(s) == s
  {
    if s == "" {
    } else {
      LiteralOfPlain(s[1..]);
    }
  }

  lemma {:induction false} LiteralOfSum(a: string, b: string)
    ensures Literal(a + b) == Literal(a) + Literal(b)
  {
    if a == "" {
      assert a + b == b;
    } else {
      assert (a + b)[1..] == a[1..] + b;
      LiteralOfSum(a[1..], b);
    }
  }

  lemma FoldOfMeta(f: Folding, c: char)
    requires KeepsMeta(f) && IsMeta(c)
    ensures Fold(f, [BACKSLASH, c]) == [BACKSLASH, c] && Fold(f, [c]) == [c]
  {
    assert [c][1..] == "" && Fold(f, [c]) == f(c) + "";
    assert [BACKSLASH, c][1..] == [c] && f(BACKSLASH) == [BACKSLASH];
  }

  /** Folding after escaping is escaping after folding. */
  lemma {:induction false} FoldCommutes(f: Folding, s: string)
    requires KeepsMeta(f) && Quiet(f, s)
    ensures Fold(f, Literal(s)) == Literal(Fold(f, s))
  {
    if s == "" {
    } else {
      var c, rest := s[0], s[1..];
      FoldCommutes(f, rest);
      LiteralOfSum(f(c), Fold(f, rest));
      FoldOfSum(f, if IsMeta(c) then [BACKSLASH, c] else [c], Literal(rest));
      if IsMeta(c) {
        FoldOfMeta(f, c);
        assert [c][1..] == "";
      } else {
        assert [c][1..] == "";
        LiteralOfPlain(f(c));
      }
    }
  }

  lemma FoldedPattern(f: Folding, needle: string)
    requires KeepsMeta(f)
    ensures Fold(f, Pattern(needle)) == ['%'] + Fold(f, Literal(needle)) + ['%']
  {
    EscapedIsLiteral(needle);
    FoldOfSum(f, ['%'] + Literal(needle), ['%']);
    FoldOfSum(f, ['%'], Literal(needle));
    FoldOfMeta(f, '%');
  }

  /** A row is found if and only if one of its columns, folded, contains the folded needle. */
  ghost predicate FindsLiterally(f: Folding, needle: string, columns: seq<Option<string>>) {
    TextFilter(f, needle, columns) <==>
    exists i :: 0 <= i < |columns| && columns[i].Some? && Contains(Fold(f, columns[i].value), Fold(f, needle))
  }

  /** A needle that no character of folds into a metacharacter is found literally. */
  lemma FilterMeansContains(f: Folding, needle: string, columns: seq<Option<string>>)
    requires KeepsMeta(f) && Quiet(f, needle)
    ensures FindsLiterally(f, needle, columns)
  {
    FoldedPattern(f, needle);
    FoldCommutes(f, needle);
    forall t ensures Like(t, Fold(f, Pattern(needle))) <==> Contains(t, Fold(f, needle))
    {
      LikeMeansContains(t, Fold(f, needle));
    }
  }

  // ---------------------------------------------------------------------------
  // A needle that folds into a metacharacter
  // ---------------------------------------------------------------------------

  // Any character but an underscore would do; this one is its own folding.
  const FILLER := '%'

  // A shortest text the pattern matches; `escaped` when a backslash was just read.
  function Shortest(p: string, escaped: bool): string {
    if p == "" then ""
    else if escaped then [p[0]] + Shortest(p[1..], false)
    else if p[0] == BACKSLASH then Shortest(p[1..], true)
    else if p[0] == '%' then Shortest(p[1..], false)
    else if p[0] == '_' then [FILLER] + Shortest(p[1..], false)
    else [p[0]] + Shortest(p[1..], false)
  }

  /** The pattern does not end in a lone backslash. */
  predicate WellFormed(p: string, escaped: bool) {
    if p == "" then !escaped
    else if escaped then WellFormed(p[1..], false)
    else WellFormed(p[1..], p[0] == BACKSLASH)
  }

  lemma {:induction false} ShortestMatches(p: string)
    requires WellFormed(p, false)
    ensures Like(Shortest(p, false), p)
    decreases |p|
  {
    if p == "" {
    } else {
      if p[0] == BACKSLASH {
        assert p[1..][1..] == p[2..];
        ShortestMatches(p[2..]);
        assert Shortest(p, false) == [p[1]] + Shortest(p[2..], false);
      } else {
        ShortestMatches(p[1..]);
        assert p[0] != '%' ==> Shortest(p, false)[1..] == Shortest(p[1..], false);
      }
    }
  }

  lemma {:induction false} MatchedIsWellFormed(t: string, p: string)
    requires Like(t, p)
    ensures WellFormed(p, false)
    decreases |p|, |t|
  {
    if p == "" {
    } else if p[0] == '%' {
      if Like(t, p[1..]) { MatchedIsWellFormed(t, p[1..]); } else { MatchedIsWellFormed(t[1..], p); }
    } else if p[0] == BACKSLASH {
      assert p[1..][1..] == p[2..];
      MatchedIsWellFormed(t[1..], p[2..]);
    } else {
      MatchedIsWellFormed(t[1..], p[1..]);
    }
  }

  // What is left of the folded pattern after a part of a character's folding: the rest `y`
  // of that folding, the needle's other characters `b`, and the closing `%`.
  function Rest(f: Folding, y: string, b: string): string {
    y + Fold(f, Literal(b)) + ['%']
  }

  lemma RestOfMore(f: Folding, y: string, b: string)
    requires y != ""
    ensures Rest(f, y, b) == [y[0]] + Rest(f, y[1..], b)
  {
    assert y == [y[0]] + y[1..];
    Associate([y[0]], y[1..], Fold(f, Literal(b)));
    Associate([y[0]], y[1..] + Fold(f, Literal(b)), ['%']);
  }

  lemma RestAtMeta(f: Folding, b: string)
    requires KeepsMeta(f) && b != "" && IsMeta(b[0])
    ensures Rest(f, "", b) == [BACKSLASH, b[0]] + Rest(f, "", b[1..])
  {
    var rest := Fold(f, Literal(b[1..]));
    FoldOfSum(f, [BACKSLASH, b[0]], Literal(b[1..]));
    FoldOfMeta(f, b[0]);
    Associate([BACKSLASH, b[0]], rest, ['%']);
    assert "" + rest == rest && "" + Fold(f, Literal(b)) == Fold(f, Literal(b));
  }

  lemma RestAtPlain(f: Folding, b: string)
    requires b != "" && !IsMeta(b[0])
    ensures Rest(f, "", b) == Rest(f, f(b[0]), b[1..])
  {
    FoldOfSum(f, [b[0]], Literal(b[1..]));
    FoldOfOne(f, b[0]);
    assert "" + Fold(f, Literal(b)) == Fold(f, Literal(b));
  }

  lemma FoldOfOne(f: Folding, c: char)
    ensures Fold(f, [c]) == f(c)
  {
    assert [c][1..] == "" && f(c) + "" == f(c);
  }

  lemma RestUnfolds(f: Folding, y: string, b: string)
    requires KeepsMeta(f)
    ensures y != "" ==> Rest(f, y, b) == [y[0]] + Rest(f, y[1..], b)
    ensures y == "" && b == "" ==> Rest(f, y, b) == ['%']
    ensures y == "" && b != "" && IsMeta(b[0]) ==> Rest(f, y, b) == [BACKSLASH, b[0]] + Rest(f, "", b[1..])
    ensures y == "" && b != "" && !IsMeta(b[0]) ==> Rest(f, y, b) == Rest(f, f(b[0]), b[1..])
  {
    if y != "" {
      RestOfMore(f, y, b);
    } else if b == "" {
    } else if IsMeta(b[0]) {
      RestAtMeta(f, b);
    } else {
      RestAtPlain(f, b);
    }
  }

  lemma ShortestAfter(c: char, rest: string)
    ensures Shortest([c] + rest, true) == [c] + Shortest(rest, false)
    ensures Shortest([BACKSLASH] + rest, false) == Shortest(rest, true)
    ensures |Shortest([c] + rest, false)| <= 1 + |Shortest(rest, false)| || c == BACKSLASH
  {
    assert ([c] + rest)[1..] == rest && ([BACKSLASH] + rest)[1..] == rest;
  }

  lemma ShortestAfterEscaped(c: char, rest: string)
    ensures Shortest([BACKSLASH, c] + rest, false) == [c] + Shortest(rest, false)
    ensures |Shortest([BACKSLASH, c] + rest, true)| <= 2 + |Shortest(rest, false)|
            || |Shortest([BACKSLASH, c] + rest, true)| <= 1 + |Shortest(rest, true)|
  {
    assert [BACKSLASH, c] + rest == [BACKSLASH] + ([c] + rest);
    ShortestAfter(BACKSLASH, [c] + rest);
    ShortestAfter(c, rest);
  }

  // The shortest match is no longer than what was folded.
  lemma {:induction false} ShortestIsShort(f: Folding, y: string, b: string)
    requires KeepsMeta(f)
    ensures |Shortest(Rest(f, y, b), false)| <= |y + Fold(f, b)|
    ensures |Shortest(Rest(f, y, b), true)| <= |y + Fold(f, b)| + 1
    decreases |b|, |y|
  {
    RestUnfolds(f, y, b);
    if y != "" {
      ShortestIsShort(f, y[1..], b);
    } else if b == "" {
    } else if IsMeta(b[0]) {
      ShortestIsShort(f, "", b[1..]);
      ShortestAfterEscaped(b[0], Rest(f, "", b[1..]));
    } else {
      ShortestIsShort(f, f(b[0]), b[1..]);
    }
  }

  lemma MetaIsLost(m: char, rest: string, folded: string)
    requires IsMeta(m) && |Shortest(rest, false)| <= |folded| && Shortest(rest, true) != [BACKSLASH] + folded
    ensures Shortest([m] + rest, false) != [m] + folded
  {
    assert ([m] + rest)[1..] == rest;
    if m == '_' { assert Shortest([m] + rest, false)[0] == FILLER; }
  }

  // A backslash read just before never makes the shortest match spell what was folded.
  lemma {:induction false} EscapeIsLost(f: Folding, y: string, b: string)
    requires KeepsMeta(f)
    ensures Shortest(Rest(f, y, b), true) != [BACKSLASH] + (y + Fold(f, b))
    decreases |b|, |y|
  {
    RestUnfolds(f, y, b);
    var all := Rest(f, y, b);
    if y != "" {
      ShortestIsShort(f, y[1..], b);
      assert all[1..] == Rest(f, y[1..], b);
    } else if b != "" && IsMeta(b[0]) {
      ShortestIsShort(f, "", b[1..]);
      assert "" + Fold(f, b[1..]) == Fold(f, b[1..]) && Fold(f, b) == [b[0]] + Fold(f, b[1..]);
      EscapeIsLost(f, "", b[1..]);
      MetaIsLost(b[0], Rest(f, "", b[1..]), Fold(f, b[1..]));
      var got := Shortest([b[0]] + Rest(f, "", b[1..]), false);
      assert all[1..] == [b[0]] + Rest(f, "", b[1..]) && Shortest(all, true) == [BACKSLASH] + got;
      assert Shortest(all, true)[1..] == got && ([BACKSLASH] + (y + Fold(f, b)))[1..] == Fold(f, b);
    } else if b != "" {
      EscapeIsLost(f, f(b[0]), b[1..]);
      assert all == Rest(f, f(b[0]), b[1..]) && y + Fold(f, b) == f(b[0]) + Fold(f, b[1..]);
    }
  }

  // A tail that matches, matches after the literal part what is not the literal whole.
  lemma ShortestMatchesElse(f: Folding, whole: string, a: string, m: char, y: string, b: string) returns (t: string)
    requires KeepsMeta(f) && IsMeta(m) && whole == a + ([m] + (y + Fold(f, b)))
    requires WellFormed([m] + Rest(f, y, b), false)
    ensures Like(t, Literal(a) + ([m] + Rest(f, y, b))) && t != whole && |t| <= |whole|
    ensures t == a + Shortest([m] + Rest(f, y, b), false)
  {
    var q := [m] + Rest(f, y, b);
    var w := Shortest(q, false);
    t := a + w;
    ShortestMatches(q);
    assert t[|a|..] == w;
    LikeOfLiteral(t, a, q);
    ShortestIsShort(f, y, b);
    EscapeIsLost(f, y, b);
    assert q[1..] == Rest(f, y, b);
    assert w != [m] + (y + Fold(f, b));
    assert whole[|a|..] == [m] + (y + Fold(f, b));
  }

  lemma {:induction false} FoldIsFolded(f: Folding, s: string)
    requires Settles(f)
    ensures Folded(f, Fold(f, s))
  {
    if s == "" {
    } else {
      FoldIsFolded(f, s[1..]);
      assert Folded(f, f(s[0]));
    }
  }

  lemma {:induction false} FoldedIsFixed(f: Folding, t: string)
    requires Folded(f, t)
    ensures Fold(f, t) == t
  {
    if t == "" {
    } else {
      FoldedIsFixed(f, t[1..]);
      assert f(t[0]) == [t[0]];
    }
  }

  lemma {:induction false} ShortestIsFolded(f: Folding, p: string, escaped: bool)
    requires KeepsMeta(f) && Folded(f, p)
    ensures Folded(f, Shortest(p, escaped))
  {
    if p == "" {
    } else {
      ShortestIsFolded(f, p[1..], !escaped && p[0] == BACKSLASH);
      assert f(p[0]) == [p[0]] && f(FILLER) == [FILLER];
    }
  }

  lemma RestIsFolded(f: Folding, y: string, b: string)
    requires KeepsMeta(f) && Settles(f) && Folded(f, y)
    ensures Folded(f, Rest(f, y, b))
  {
    FoldIsFolded(f, Literal(b));
    assert f('%') == ['%'];
  }

  // A tail that is not well formed matches nothing.
  lemma IllFormedMatchesNothing(t: string, a: string, q: string)
    requires !WellFormed(q, false)
    ensures !Like(t, ['%'] + (Literal(a) + q))
  {
    LikeOfPercent(t, Literal(a) + q);
    forall k | 0 <= k <= |t| ensures !Like(t[k..], Literal(a) + q)
    {
      LikeOfLiteral(t[k..], a, q);
      if a <= t[k..] && Like(t[k..][|a|..], q) { MatchedIsWellFormed(t[k..][|a|..], q); }
    }
  }

  lemma ShorterOrElse(t: string, whole: string)
    requires |t| <= |whole| && t != whole
    ensures !Contains(t, whole)
  {
  }

  // The pattern whose first folded metacharacter is `m` is not the literal it should be.
  lemma WildcardMatchesElse(f: Folding, whole: string, a: string, m: char, y: string, b: string) returns (t: string)
    requires KeepsMeta(f) && Settles(f) && IsMeta(m) && whole == a + ([m] + (y + Fold(f, b)))
    requires Folded(f, whole) && Folded(f, a) && Folded(f, y)
    ensures Folded(f, t)
    ensures var p := ['%'] + (Literal(a) + ([m] + Rest(f, y, b)));
            Like(t, p) <==> !Contains(t, whole)
  {
    var q := [m] + Rest(f, y, b);
    if WellFormed(q, false) {
      t := ShortestMatchesElse(f, whole, a, m, y, b);
      LikeOfPercent(t, Literal(a) + q);
      assert t[0..] == t;
      ShorterOrElse(t, whole);
      RestIsFolded(f, y, b);
      ShortestIsFolded(f, q, false);
    } else {
      t := whole;
      IllFormedMatchesNothing(t, a, q);
      assert whole <= t[0..];
    }
  }

  // Where the first metacharacter is.
  function FirstMeta(s: string): (i: nat)
    requires !NoMeta(s)
    ensures i < |s| && IsMeta(s[i]) && NoMeta(s[..i])
  {
    if IsMeta(s[0]) then 0 else 1 + FirstMeta(s[1..])
  }

  // The first character of the needle that folds into a metacharacter.
  function FirstLoud(f: Folding, needle: string): (i: nat)
    requires !Quiet(f, needle)
    ensures i < |needle| && !IsMeta(needle[i]) && !NoMeta(f(needle[i])) && Quiet(f, needle[..i])
  {
    if !IsMeta(needle[0]) && !NoMeta(f(needle[0])) then 0 else 1 + FirstLoud(f, needle[1..])
  }

  // The folded needle and its folded pattern, cut at the first metacharacter that
  // folding makes.
  lemma CutNeedle(f: Folding, before: string, c: char, b: string, x: string, m: char, y: string)
    requires f(c) == x + [m] + y
    ensures Fold(f, before + ([c] + b)) == (Fold(f, before) + x) + ([m] + (y + Fold(f, b)))
  {
    FoldOfSum(f, before, [c] + b);
    FoldOfSum(f, [c], b);
    FoldOfOne(f, c);
    Associate(x, [m], y);
    Associate(x, [m] + y, Fold(f, b));
    Associate([m], y, Fold(f, b));
    Associate(Fold(f, before), x, [m] + (y + Fold(f, b)));
  }

  lemma CutEnd(f: Folding, c: char, b: string, x: string, m: char, y: string)
    requires KeepsMeta(f) && f(c) == x + [m] + y && !IsMeta(c)
    ensures Fold(f, Literal([c] + b)) + ['%'] == x + ([m] + Rest(f, y, b))
  {
    var tail := Fold(f, Literal(b)) + ['%'];
    assert ([c] + b)[1..] == b && ([c] + b)[0] == c;
    RestAtPlain(f, [c] + b);
    assert Fold(f, Literal([c] + b)) + ['%'] == Rest(f, "", [c] + b) by {
      assert "" + Fold(f, Literal([c] + b)) == Fold(f, Literal([c] + b));
    }
    Associate(f(c), Fold(f, Literal(b)), ['%']);
    Associate(x, [m], y);
    Associate(x, [m] + y, tail);
    Associate([m], y, tail);
    Associate(y, Fold(f, Literal(b)), ['%']);
  }

  lemma CutPattern(f: Folding, before: string, c: char, b: string, x: string, m: char, y: string)
    requires KeepsMeta(f) && Quiet(f, before) && NoMeta(x) && f(c) == x + [m] + y && !IsMeta(c)
    ensures Fold(f, Literal(before + ([c] + b))) + ['%'] == Literal(Fold(f, before) + x) + ([m] + Rest(f, y, b))
  {
    var q := [m] + Rest(f, y, b);
    var end := Literal([c] + b);
    LiteralOfSum(before, [c] + b);
    FoldOfSum(f, Literal(before), end);
    FoldCommutes(f, before);
    CutEnd(f, c, b, x, m, y);
    assert Literal(Fold(f, before) + x) == Literal(Fold(f, before)) + x by {
      LiteralOfPlain(x);
      LiteralOfSum(Fold(f, before), x);
    }
    Associate(Literal(Fold(f, before)), Fold(f, end), ['%']);
    Associate(Literal(Fold(f, before)), x, q);
  }

  // A folded column that the pattern gets wrong.
  lemma LoudNeedle(f: Folding, needle: string) returns (t: string)
    requires KeepsMeta(f) && Settles(f) && !Quiet(f, needle)
    ensures Folded(f, t)
    ensures Like(t, Fold(f, Pattern(needle))) <==> !Contains(t, Fold(f, needle))
  {
    var i := FirstLoud(f, needle);
    var before, c, b := needle[..i], needle[i], needle[i + 1..];
    var j := FirstMeta(f(c));
    var x, m, y := f(c)[..j], f(c)[j], f(c)[j + 1..];
    assert needle == before + ([c] + b);
    CutNeedle(f, before, c, b, x, m, y);
    CutPattern(f, before, c, b, x, m, y);
    FoldedPattern(f, needle);
    assert Fold(f, Pattern(needle)) == ['%'] + (Fold(f, Literal(needle)) + ['%']);
    FoldIsFolded(f, needle);
    FoldIsFolded(f, before);
    PartsAreFolded(f, c, x, m, y);
    t := WildcardMatchesElse(f, Fold(f, needle), Fold(f, before) + x, m, y, b);
  }

  lemma PartsAreFolded(f: Folding, c: char, x: string, m: char, y: string)
    requires Settles(f) && f(c) == x + [m] + y
    ensures Folded(f, x) && Folded(f, y)
  {
    forall i | 0 <= i < |x| ensures f(x[i]) == [x[i]] { assert f(c)[i] == x[i]; }
    forall i | 0 <= i < |y| ensures f(y[i]) == [y[i]] { assert f(c)[|x| + 1 + i] == y[i]; }
  }

  /** When what folding writes is folded, the filter means "contains" on every row if and only
      if no character of the needle folds into a metacharacter. */
  lemma LiteralSearchExactly(f: Folding, needle: string)
    requires KeepsMeta(f) && Settles(f)
    ensures Quiet(f, needle) <==> forall columns :: FindsLiterally(f, needle, columns)
  {
    if Quiet(f, needle) {
      forall columns ensures FindsLiterally(f, needle, columns) { FilterMeansContains(f, needle, columns); }
    } else {
      var t := LoudNeedle(f, needle);
      FoldedIsFixed(f, t);
      var columns := [Some(t)];
      assert columns[0].Some? && columns[0].value == t;
      assert !FindsLiterally(f, needle, columns);
    }
  }

  // A folding that would fold its own writing again: the wildcard that 'c' brings always
  // follows a 'z', and folded columns have no other 'z'.
  const UNSETTLED: Folding := c => if c == 'c' then "z_" else if c == 'z' then "w" else [c]

  lemma {:induction false} UnsettledColumn(t: string, k: nat)
    requires k < |Fold(UNSETTLED, t)| && Fold(UNSETTLED, t)[k] == 'z'
    ensures k + 1 < |Fold(UNSETTLED, t)| && Fold(UNSETTLED, t)[k + 1] == '_'
  {
    var head, rest := UNSETTLED(t[0]), Fold(UNSETTLED, t[1..]);
    assert Fold(UNSETTLED, t) == head + rest;
    if k >= |head| {
      assert rest[k - |head|] == 'z';
      UnsettledColumn(t[1..], k - |head|);
    }
  }

  lemma UnsettledMatch(u: string)
    requires forall k :: 0 <= k < |u| && u[k] == 'z' ==> k + 1 < |u| && u[k + 1] == '_'
    ensures Like(u, ['%'] + ("z_" + ['%'])) <==> Contains(u, "z_")
  {
    var q := "z_" + ['%'];
    assert q == ['z'] + (['_'] + ['%']) && (['_'] + ['%'])[1..] == ['%'];
    LikeOfPercent(u, q);
    forall k | 0 <= k <= |u| ensures Like(u[k..], q) <==> "z_" <= u[k..]
    {
      LikeOfPlain(u[k..], 'z', ['_'] + ['%']);
      if k < |u| && u[k] == 'z' {
        PercentMatchesAll(u[k..][1..][1..]);
        assert "z_" <= u[k..];
      }
    }
  }

  lemma PatternOfOne(f: Folding, c: char)
    requires KeepsMeta(f) && !IsMeta(c)
    ensures Fold(f, [c]) == f(c) && Fold(f, Pattern([c])) == ['%'] + (f(c) + ['%'])
  {
    FoldedPattern(f, [c]);
    FoldOfOne(f, c);
    assert [c][1..] == "" && Literal([c]) == [c];
    Associate(['%'], f(c), ['%']);
  }

  lemma UnsettledIsLoud()
    ensures !Settles(UNSETTLED) && !Quiet(UNSETTLED, "c")
  {
    assert UNSETTLED('c')[0] == 'z' && UNSETTLED('c')[1] == '_' && "c"[0] == 'c';
  }

  lemma UnsettledFolded(t: string)
    ensures Like(Fold(UNSETTLED, t), ['%'] + ("z_" + ['%'])) <==> Contains(Fold(UNSETTLED, t), "z_")
  {
    var u := Fold(UNSETTLED, t);
    forall k | 0 <= k < |u| && u[k] == 'z' ensures k + 1 < |u| && u[k + 1] == '_' { UnsettledColumn(t, k); }
    UnsettledMatch(u);
  }

  /** Without that hypothesis a needle can fold into a metacharacter and still be found
      literally on every row. */
  lemma UnsettledFoldingHidesWildcard(columns: seq<Option<string>>)
    ensures KeepsMeta(UNSETTLED) && !Settles(UNSETTLED) && !Quiet(UNSETTLED, "c")
    ensures FindsLiterally(UNSETTLED, "c", columns)
  {
    UnsettledIsLoud();
    PatternOfOne(UNSETTLED, 'c');
    assert "c" == ['c'];
    forall i | 0 <= i < |columns| && columns[i].Some?
      ensures Like(Fold(UNSETTLED, columns[i].value), ['%'] + ("z_" + ['%']))
              <==> Contains(Fold(UNSETTLED, columns[i].value), "z_")
    {
      UnsettledFolded(columns[i].value);
    }
  }

  const FULL_WIDTH_PERCENT := '\U{ff05}'

  // `unaccent` with a rule for the full-width percent sign.
  const NARROWING: Folding := c => if c == FULL_WIDTH_PERCENT then "%" else [c]

  /** For instance: folded to a plain percent sign, a full-width one finds every text. */
  lemma FullWidthPercentFindsAll(t: string)
    ensures KeepsMeta(NARROWING) && !Quiet(NARROWING, [FULL_WIDTH_PERCENT])
    ensures Like(t, Fold(NARROWING, Pattern([FULL_WIDTH_PERCENT])))
    ensures Contains("abc", Fold(NARROWING, [FULL_WIDTH_PERCENT])) == false
  {
    assert NARROWING(FULL_WIDTH_PERCENT)[0] == '%' && [FULL_WIDTH_PERCENT][0] == FULL_WIDTH_PERCENT;
    PatternOfOne(NARROWING, FULL_WIDTH_PERCENT);
    PercentMatchesAll(t);
    LikeOfPercent(t, ['%'] + ['%']);
    LikeOfPercent(t, ['%']);
    assert t[0..] == t;
  }
}
