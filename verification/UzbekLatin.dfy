/**
 The Uzbek Cyrillic to Latin transliteration of migration 0032, letter by letter, with
 the case of a two-letter output decided by its neighbours.
 */
module UzbekLatin {

  /** `str.isalpha` and `str.isupper`, known here for the letters of the table only. */
  datatype Alphabet = Alphabet(isAlpha: char -> bool, isUpper: char -> bool)
  {
    ghost predicate Valid() {
      forall c :: Mapped(c) ==> isAlpha(c) && (isUpper(c) <==> Capital(c))
    }
  }

  // The Latin form of each small letter inside a word.
  const TABLE: map<char, string> := map[
    'а' := "a", 'б' := "b", 'в' := "v", 'г' := "g", 'д' := "d", 'ж' := "j", 'з' := "z",
    'и' := "i", 'й' := "y", 'к' := "k", 'л' := "l", 'м' := "m", 'н' := "n", 'о' := "o",
    'п' := "p", 'р' := "r", 'с' := "s", 'т' := "t", 'у' := "u", 'ф' := "f", 'х' := "x",
    'э' := "e", 'қ' := "q", 'ҳ' := "h", 'ы' := "i", 'ь' := "", 'ъ' := "ʼ", 'е' := "e",
    'ц' := "ts", 'ч' := "ch", 'ш' := "sh", 'щ' := "sh", 'ё' := "yo", 'ю' := "yu", 'я' := "ya",
    'ў' := "oʻ", 'ғ' := "gʻ"]

  predicate Small(c: char) {
    c in TABLE
  }

  // `str.lower`, as far as the table can tell.
  function Lower(c: char): char {
    if 'А' <= c <= 'Я' then c - 'А' + 'а'
    else if c == 'Ё' then 'ё'
    else if c == 'Ў' then 'ў'
    else if c == 'Қ' then 'қ'
    else if c == 'Ғ' then 'ғ'
    else if c == 'Ҳ' then 'ҳ'
    else c
  }

  predicate Mapped(c: char) {
    Small(Lower(c))
  }

  predicate Capital(c: char) {
    Lower(c) != c
  }

  const WORD_START := "ye"

  function Latin(c: char): string
    requires Small(c)
  {
    TABLE[c]
  }

  // `str.upper` on the table's outputs.
  function Upper(c: char): char {
    if 'a' <= c <= 'z' then c - 'a' + 'A' else c
  }

  function UpperAll(s: string): string {
    seq(|s|, i requires 0 <= i < |s| => Upper(s[i]))
  }

  predicate IsOutput(c: char) {
    'a' <= c <= 'z' || 'A' <= c <= 'Z' || c == 'ʻ' || c == 'ʼ'
  }

  lemma LatinIsShort(c: char)
    requires Small(c)
    ensures |Latin(c)| <= 2 && forall x :: x in Latin(c) ==> IsOutput(x)
  {
  }

  lemma OutputIsUnmapped(c: char)
    requires IsOutput(c)
    ensures !Mapped(c)
  {
  }

  lemma UpperIsOutput(s: string)
    requires forall x :: x in s ==> IsOutput(x)
    ensures |UpperAll(s)| == |s|
    ensures forall x :: x in UpperAll(s) ==> IsOutput(x) && !('a' <= x <= 'z')
  {
    forall x | x in UpperAll(s) ensures IsOutput(x) && !('a' <= x <= 'z')
    {
      var i :| 0 <= i < |s| && UpperAll(s)[i] == x;
      assert s[i] in s;
    }
  }

  // ---------------------------------------------------------------------------
  // One letter in its place
  // ---------------------------------------------------------------------------

  predicate AlphaAt(abc: Alphabet, text: string, i: int) {
    0 <= i < |text| && abc.isAlpha(text[i])
  }

  predicate CapitalAt(abc: Alphabet, text: string, i: int) {
    AlphaAt(abc, text, i) && abc.isUpper(text[i])
  }

  // The Latin form before case: a capital's is the small letter's.
  function Bare(c: char, wordStart: bool): string
    requires Mapped(c)
  {
    if Lower(c) == 'е' && wordStart then WORD_START else Latin(Lower(c))
  }

  function Cased(bare: string, capital: bool, besideCapital: bool): string {
    if bare == "" || !capital then bare
    else if |bare| == 1 || besideCapital then UpperAll(bare)
    else [Upper(bare[0])] + bare[1..]
  }

  /** What position `i` contributes to the output. */
  function Piece(abc: Alphabet, text: string, i: nat): string
    requires i < |text|
  {
    var c := text[i];
    if !Mapped(c) then [c]
    else Cased(Bare(c, !AlphaAt(abc, text, i - 1)), abc.isUpper(c),
               CapitalAt(abc, text, i - 1) || CapitalAt(abc, text, i + 1))
  }

  function Join(pieces: seq<string>): string {
    if pieces == [] then "" else Join(pieces[..|pieces| - 1]) + pieces[|pieces| - 1]
  }

  function Pieces(abc: Alphabet, text: string): seq<string> {
    seq(|text|, i requires 0 <= i < |text| => Piece(abc, text, i))
  }

  function Transliterated(abc: Alphabet, text: string): string {
    Join(Pieces(abc, text))
  }

  /** One turn of the loop in `translit_uz_cyrl_to_latn`. */
  method TransliterateLetter(abc: Alphabet, text: string, i: nat) returns (piece: string)
    requires i < |text|
    ensures piece == Piece(abc, text, i)
  {
    var c := text[i];
    var lower := Lower(c);
    if !Small(lower) {
      return [c];
    }
    var prevAlpha := i > 0 && abc.isAlpha(text[i - 1]);
    var latin := if lower == 'е' then (if prevAlpha then "e" else "ye") else Latin(lower);
    if latin == "" || !abc.isUpper(c) {
      return latin;
    }
    if |latin| == 1 {
      return UpperAll(latin);
    }
    var prevUpper := prevAlpha && abc.isUpper(text[i - 1]);
    var nextUpper := i + 1 < |text| && abc.isAlpha(text[i + 1]) && abc.isUpper(text[i + 1]);
    return if prevUpper || nextUpper then UpperAll(latin) else [Upper(latin[0])] + latin[1..];
  }

  method Transliterate(abc: Alphabet, text: string) returns (out: string)
    ensures out == Transliterated(abc, text)
  {
    out := "";
    for i := 0 to |text|
      invariant out == Join(Pieces(abc, text)[..i])
    {
      var piece := TransliterateLetter(abc, text, i);
      OneMorePiece(abc, text, i);
      out := out + piece;
    }
    assert Pieces(abc, text)[..|text|] == Pieces(abc, text);
  }

  lemma OneMorePiece(abc: Alphabet, text: string, i: nat)
    requires i < |text|
    ensures Join(Pieces(abc, text)[..i + 1]) == Join(Pieces(abc, text)[..i]) + Piece(abc, text, i)
  {
    assert Pieces(abc, text)[..i + 1][..i] == Pieces(abc, text)[..i];
  }

  // ---------------------------------------------------------------------------
  // Properties
  // ---------------------------------------------------------------------------

  /** Each capital has its own small letter, which the table knows. */
  lemma LowerPairs()
    ensures Lower('А') == 'а' && Lower('Б') == 'б' && Lower('В') == 'в' && Lower('Г') == 'г' && Lower('Д') == 'д'
    ensures Lower('Е') == 'е' && Lower('Ж') == 'ж' && Lower('З') == 'з' && Lower('И') == 'и' && Lower('Й') == 'й'
    ensures Lower('К') == 'к' && Lower('Л') == 'л' && Lower('М') == 'м' && Lower('Н') == 'н' && Lower('О') == 'о'
    ensures Lower('П') == 'п' && Lower('Р') == 'р' && Lower('С') == 'с' && Lower('Т') == 'т' && Lower('У') == 'у'
    ensures Lower('Ф') == 'ф' && Lower('Х') == 'х' && Lower('Ц') == 'ц' && Lower('Ч') == 'ч' && Lower('Ш') == 'ш'
    ensures Lower('Щ') == 'щ' && Lower('Ъ') == 'ъ' && Lower('Ы') == 'ы' && Lower('Ь') == 'ь' && Lower('Э') == 'э'
    ensures Lower('Ю') == 'ю' && Lower('Я') == 'я' && Lower('Ё') == 'ё' && Lower('Ў') == 'ў' && Lower('Қ') == 'қ'
    ensures Lower('Ғ') == 'ғ' && Lower('Ҳ') == 'ҳ'
  {
  }

  /** What a letter becomes where it stands. "е" is "ye" where no letter precedes it and "e" where
      one does; any other letter has the form of the table. A capital makes the first letter of
      that form a capital, and the second too if a capital stands beside it. */
  lemma LetterInPlace(abc: Alphabet, text: string, i: nat)
    requires abc.Valid() && i < |text|
    ensures var c, piece := text[i], Piece(abc, text, i);
            var wordStart := i == 0 || !abc.isAlpha(text[i - 1]);
            var run := (i > 0 && abc.isAlpha(text[i - 1]) && abc.isUpper(text[i - 1]))
                       || (i + 1 < |text| && abc.isAlpha(text[i + 1]) && abc.isUpper(text[i + 1]));
            && (!Mapped(c) ==> piece == [c])
            && (Mapped(c) ==>
                  var small := if Lower(c) != 'е' then TABLE[Lower(c)] else if wordStart then "ye" else "e";
                  && (!Capital(c) ==> piece == small)
                  && (Capital(c) ==>
                        && |piece| == |small| <= 2
                        && (|small| > 0 ==> piece[0] == Upper(small[0]))
                        && (|small| > 1 ==> piece[1] == if run then Upper(small[1]) else small[1])))
  {
    if Mapped(text[i]) {
      BareIsOutput(text[i], !AlphaAt(abc, text, i - 1));
    }
  }

  /** "е" where it starts a word, and a two-letter form inside a run of capitals. */
  lemma KnownWords(abc: Alphabet)
    requires abc.Valid()
    ensures Transliterated(abc, "ер") == "yer" && Transliterated(abc, "ОШ") == "OSH"
  {
    SmallWord(abc);
    CapitalWord(abc);
  }

  lemma SmallWord(abc: Alphabet)
    requires abc.Valid()
    ensures Transliterated(abc, "ер") == "yer"
  {
    LetterInPlace(abc, "ер", 0);
    LetterInPlace(abc, "ер", 1);
    TwoLetters(abc, "ер", "ye", "r");
  }

  lemma CapitalWord(abc: Alphabet)
    requires abc.Valid()
    ensures Transliterated(abc, "ОШ") == "OSH"
  {
    LetterInPlace(abc, "ОШ", 0);
    LetterInPlace(abc, "ОШ", 1);
    TwoLetters(abc, "ОШ", "O", "SH");
  }

  lemma TwoLetters(abc: Alphabet, text: string, a: string, b: string)
    requires |text| == 2 && Piece(abc, text, 0) == a && Piece(abc, text, 1) == b
    ensures Transliterated(abc, text) == a + b
  {
    OneMorePiece(abc, text, 0);
    OneMorePiece(abc, text, 1);
    assert Pieces(abc, text)[..0] == [] && Pieces(abc, text)[..2] == Pieces(abc, text);
    assert "" + a == a;
  }

  lemma BareIsOutput(c: char, wordStart: bool)
    requires Mapped(c)
    ensures |Bare(c, wordStart)| <= 2 && forall x :: x in Bare(c, wordStart) ==> IsOutput(x)
  {
    LatinIsShort(Lower(c));
  }

  lemma CasedIsOutput(bare: string, capital: bool, besideCapital: bool)
    requires forall x :: x in bare ==> IsOutput(x)
    ensures |Cased(bare, capital, besideCapital)| == |bare|
    ensures forall x :: x in Cased(bare, capital, besideCapital) ==> IsOutput(x)
    ensures capital && besideCapital ==> forall x :: x in Cased(bare, capital, besideCapital) ==> !('a' <= x <= 'z')
  {
    UpperIsOutput(bare);
    if bare != "" {
      assert bare[0] in bare;
    }
  }

  lemma PieceIsOutput(abc: Alphabet, text: string, i: nat)
    requires i < |text|
    ensures |Piece(abc, text, i)| <= 2
    ensures forall x :: x in Piece(abc, text, i) ==> !Mapped(x)
  {
    var c := text[i];
    if Mapped(c) {
      var bare := Bare(c, !AlphaAt(abc, text, i - 1));
      BareIsOutput(c, !AlphaAt(abc, text, i - 1));
      CasedIsOutput(bare, abc.isUpper(c), CapitalAt(abc, text, i - 1) || CapitalAt(abc, text, i + 1));
      forall x | x in Piece(abc, text, i) ensures !Mapped(x) { OutputIsUnmapped(x); }
    }
  }

  lemma {:induction false} JoinOfShort(pieces: seq<string>)
    requires forall p :: p in pieces ==> |p| <= 2 && forall x :: x in p ==> !Mapped(x)
    ensures |Join(pieces)| <= 2 * |pieces|
    ensures forall x :: x in Join(pieces) ==> !Mapped(x)
  {
    if pieces == [] {
    } else {
      JoinOfShort(pieces[..|pieces| - 1]);
      assert pieces[|pieces| - 1] in pieces;
    }
  }

  lemma {:induction false} JoinOfSingles(text: string, pieces: seq<string>)
    requires |pieces| == |text| && forall i :: 0 <= i < |text| ==> pieces[i] == [text[i]]
    ensures Join(pieces) == text
  {
    if pieces == [] {
    } else {
      JoinOfSingles(text[..|text| - 1], pieces[..|pieces| - 1]);
    }
  }

  /** No letter of the table is left, and the text at most doubles. */
  lemma NothingMappedIsLeft(abc: Alphabet, text: string)
    ensures |Transliterated(abc, text)| <= 2 * |text|
    ensures forall x :: x in Transliterated(abc, text) ==> !Mapped(x)
  {
    forall p | p in Pieces(abc, text) ensures |p| <= 2 && forall x :: x in p ==> !Mapped(x)
    {
      var i :| 0 <= i < |text| && Pieces(abc, text)[i] == p;
      PieceIsOutput(abc, text, i);
    }
    JoinOfShort(Pieces(abc, text));
  }

  lemma UnmappedIsUnchanged(abc: Alphabet, text: string)
    requires forall x :: x in text ==> !Mapped(x)
    ensures Transliterated(abc, text) == text
  {
    forall i | 0 <= i < |text| ensures Pieces(abc, text)[i] == [text[i]] { assert text[i] in text; }
    JoinOfSingles(text, Pieces(abc, text));
  }

  /** Transliterating twice is transliterating once. */
  lemma TransliterationIsIdempotent(abc: Alphabet, text: string)
    ensures Transliterated(abc, Transliterated(abc, text)) == Transliterated(abc, text)
  {
    NothingMappedIsLeft(abc, text);
    UnmappedIsUnchanged(abc, Transliterated(abc, text));
  }

  predicate Separable(abc: Alphabet, a: string, b: string) {
    a == "" || b == "" || !abc.isAlpha(a[|a| - 1]) || !abc.isAlpha(b[0])
  }

  lemma PieceBeforeSplit(abc: Alphabet, a: string, b: string, i: nat)
    requires abc.Valid() && Separable(abc, a, b) && i < |a|
    ensures Piece(abc, a + b, i) == Piece(abc, a, i)
  {
    var whole := a + b;
    assert whole[i] == a[i] && (i > 0 ==> whole[i - 1] == a[i - 1]);
    if i + 1 < |a| {
      assert whole[i + 1] == a[i + 1];
    } else if Mapped(a[i]) {
      assert abc.isAlpha(a[i]);
      assert !AlphaAt(abc, whole, i + 1);
    }
  }

  lemma PieceAfterSplit(abc: Alphabet, a: string, b: string, i: nat)
    requires abc.Valid() && Separable(abc, a, b) && |a| <= i < |a| + |b|
    ensures Piece(abc, a + b, i) == Piece(abc, b, i - |a|)
  {
    var whole, j := a + b, i - |a|;
    assert whole[i] == b[j] && (j + 1 < |b| ==> whole[i + 1] == b[j + 1]);
    if j > 0 {
      assert whole[i - 1] == b[j - 1];
    } else if Mapped(b[0]) {
      assert abc.isAlpha(b[0]);
      assert !AlphaAt(abc, whole, |a| - 1);
    }
  }

  lemma {:induction false} JoinOfSum(a: seq<string>, b: seq<string>)
    ensures Join(a + b) == Join(a) + Join(b)
  {
    if b == [] {
      assert a + b == a;
    } else {
      JoinOfSum(a, b[..|b| - 1]);
      assert (a + b)[..|a + b| - 1] == a + b[..|b| - 1];
    }
  }

  lemma PiecesOfSum(abc: Alphabet, a: string, b: string)
    requires abc.Valid() && Separable(abc, a, b)
    ensures Pieces(abc, a + b) == Pieces(abc, a) + Pieces(abc, b)
  {
    forall i | 0 <= i < |a| ensures Pieces(abc, a + b)[i] == Pieces(abc, a)[i] { PieceBeforeSplit(abc, a, b, i); }
    forall i | |a| <= i < |a| + |b| ensures Pieces(abc, a + b)[i] == Pieces(abc, b)[i - |a|]
    {
      PieceAfterSplit(abc, a, b, i);
    }
  }

  /** A text can be transliterated piecewise wherever a non-letter stands at the seam. */
  lemma SplitsAtNonLetters(abc: Alphabet, a: string, b: string)
    requires abc.Valid() && Separable(abc, a, b)
    ensures Transliterated(abc, a + b) == Transliterated(abc, a) + Transliterated(abc, b)
  {
    PiecesOfSum(abc, a, b);
    JoinOfSum(Pieces(abc, a), Pieces(abc, b));
  }

  /** In an all-caps run a capital of the table yields no small letter. */
  lemma CapsRunStaysCapital(abc: Alphabet, text: string, i: nat)
    requires abc.Valid() && i < |text| && Mapped(text[i]) && Capital(text[i])
    requires CapitalAt(abc, text, i - 1) || CapitalAt(abc, text, i + 1)
    ensures forall x :: x in Piece(abc, text, i) ==> !('a' <= x <= 'z')
  {
    BareIsOutput(text[i], !AlphaAt(abc, text, i - 1));
    CasedIsOutput(Bare(text[i], !AlphaAt(abc, text, i - 1)), abc.isUpper(text[i]), true);
  }
}
