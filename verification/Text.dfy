/** Annotations as text: writing a permission down and reading it back. */
module Text {
  import opened Wrappers
  import opened BasePermission
  import opened Permission
  import opened Scanning
  import opened Grammar

  /** An alphabet with the letters the language needs, in which letters, spaces and punctuation do not overlap. */
  predicate Usual(al: Alphabet) {
    && Sane(al) && !al.letter(' ') && !al.digit(' ') && al.space(' ')
    && (forall c :: al.letter(c) ==> Punctuation(c).Illegal?)
    && LettersOnly(al, "orwRWn") && LettersOnly(al, "func") && LettersOnly(al, "interface") && LettersOnly(al, "map")
    && LettersOnly(al, "chan") && LettersOnly(al, "struct") && LettersOnly(al, "lv")
  }

  predicate LettersOnly(al: Alphabet, word: string) {
    forall i :: 0 <= i < |word| ==> al.letter(word[i])
  }

  /** What scanning takes for a word: letters, the last of which may be followed by a NUL that ends the word and is
      swallowed. */
  predicate IsRun(al: Alphabet, word: string) {
    && word != "" && al.letter(word[0]) && LettersOnly(al, word[..|word| - 1])
    && (al.letter(word[|word| - 1]) || word[|word| - 1] == NUL)
  }

  /** A token that can be written down: a word or keyword, or punctuation. */
  predicate Spellable(al: Alphabet, t: Token) {
    if t.typ.Illegal? || t.typ.EndOfFile? || t.typ.Number? then false
    else if |t.value| == 1 && !Punctuation(t.value[0]).Illegal? then t.typ == Punctuation(t.value[0])
    else IsRun(al, t.value) && t.typ == Keyword(t.value)
  }

  predicate AllSpellable(al: Alphabet, ts: seq<Token>) {
    forall i :: 0 <= i < |ts| ==> Spellable(al, ts[i])
  }

  /** Tokens written down, each after a space. */
  function Written(ts: seq<Token>): string {
    if ts == [] then "" else [' '] + ts[0].value + Written(ts[1..])
  }

  /** Every function in the permission has no name, or one that scanning takes for a word and no keyword. */
  predicate WellNamed(al: Alphabet, p: Perm) {
    p.Node? ==>
      && (p.kind.Func? && p.kind.name != "" ==> IsRun(al, p.kind.name) && Keyword(p.kind.name).Word?)
      && forall i :: 0 <= i < |p.parts| ==> WellNamed(al, p.parts[i])
  }

  lemma {:induction false} RunOfLetters(al: Alphabet, input: string, i: nat, end: nat)
    requires Usual(al) && i <= end <= |input| && (end < |input| ==> input[end] == ' ')
    requires forall k :: i <= k < end - 1 ==> al.letter(input[k])
    requires i < end ==> al.letter(input[end - 1]) || input[end - 1] == NUL
    ensures RunEnd(al.letter, input, i) == end
    decreases end - i
  {
    if i < end {
      RunOfLetters(al, input, i + 1, end);
    }
  }

  /** Scanning a written token gives that token. */
  lemma ScanWritten(al: Alphabet, input: string, i: nat, t: Token)
    requires Usual(al) && Spellable(al, t)
    requires i + 1 + |t.value| <= |input| && input[i] == ' ' && input[i + 1..i + 1 + |t.value|] == t.value
    requires i + 1 + |t.value| < |input| ==> input[i + 1 + |t.value|] == ' '
    ensures Next(al, input, i) == Lexeme(t, i + 1 + |t.value|)
  {
    var start, end := i + 1, i + 1 + |t.value|;
    assert input[start] == t.value[0];
    assert Next(al, input, i) == Next(al, input, start);
    if Punctuation(t.value[0]).Illegal? {
      assert forall k :: start <= k < end ==> input[k] == t.value[k - start];
      assert forall k :: start <= k < end - 1 ==> input[k] == t.value[..|t.value| - 1][k - start];
      RunOfLetters(al, input, start, end);
    }
  }

  /** Scanning inverts writing. */
  lemma {:induction false} TokensOfWritten(al: Alphabet, before: string, ts: seq<Token>)
    requires Usual(al) && AllSpellable(al, ts)
    ensures Tokens(al, before + Written(ts), |before|) == ts
    decreases ts
  {
    hide Usual, Spellable, Next;
    var input := before + Written(ts);
    if ts == [] {
      AtEnd(al, input);
    } else {
      var after := before + [' '] + ts[0].value;
      assert input == after + Written(ts[1..]);
      assert input[|before| + 1..|after|] == ts[0].value;
      assert ts[1..] != [] ==> Written(ts[1..])[0] == ' ';
      ScanWritten(al, input, |before|, ts[0]);
      NoEnd(al, ts[0]);
      TokensOfWritten(al, after, ts[1..]);
    }
  }

  lemma AtEnd(al: Alphabet, input: string)
    ensures Next(al, input, |input|) == Lexeme(END, |input|)
  {
  }

  lemma NoEnd(al: Alphabet, t: Token)
    requires Spellable(al, t)
    ensures t != END && t != ILLEGAL
  {
  }

  // ----- renderings can be written

  lemma WordIsSpellable(al: Alphabet, word: string)
    requires Usual(al) && IsRun(al, word) && Keyword(word).Word?
    ensures Spellable(al, Token(Word, word))
  {
    assert al.letter(word[0]);
  }

  /** Letters, the first of them one that stands for a right. */
  predicate Bits(al: Alphabet, word: string) {
    LettersOnly(al, word) && (word != "" ==> word[0] in "orwRWn")
  }

  lemma LetterBits(al: Alphabet, present: bool, c: char)
    requires Usual(al) && c in "orwRWn"
    ensures Bits(al, Letter(present, c))
  {
    assert forall k :: 0 <= k < 6 ==> al.letter("orwRWn"[k]);
  }

  lemma ConcatBits(al: Alphabet, a: string, b: string)
    requires Bits(al, a) && Bits(al, b)
    ensures Bits(al, a + b)
  {
  }

  lemma SpellingBits(al: Alphabet, b: Rights)
    requires Usual(al)
    ensures Bits(al, Spelling(b))
  {
    hide Bits, Usual, Letter;
    var o, r, w, xr, xw := Letter(b.o, 'o'), Letter(b.r, 'r'), Letter(b.w, 'w'), Letter(b.xr, 'R'), Letter(b.xw, 'W');
    LetterBits(al, b.o, 'o');
    LetterBits(al, b.r, 'r');
    LetterBits(al, b.w, 'w');
    LetterBits(al, b.xr, 'R');
    LetterBits(al, b.xw, 'W');
    LetterBits(al, true, 'n');
    assert Letter(true, 'n') == "n" by { PresentLetter('n'); }
    ConcatBits(al, o, r);
    ConcatBits(al, o + r, w);
    ConcatBits(al, o + r + w, xr);
    ConcatBits(al, o + r + w + xr, xw);
  }

  lemma PresentLetter(c: char)
    ensures Letter(true, c) == [c]
  {
  }

  lemma SpellingIsSpellable(al: Alphabet, b: Rights)
    requires Usual(al)
    ensures Spellable(al, Token(Word, Spelling(b)))
  {
    hide WordRights, Usual, Spelling;
    SpellingRights(b);
    SpellingBits(al, b);
    NotKeyword(Spelling(b));
    WordIsSpellable(al, Spelling(b));
  }

  lemma NotKeyword(word: string)
    requires word != "" && word[0] in "orwRWn"
    ensures Keyword(word).Word?
  {
  }

  lemma PunctuationIsSpellable(al: Alphabet)
    ensures Spellable(al, COMMA) && Spellable(al, SEMICOLON) && Spellable(al, Token(Underscore, "_")) && Spellable(al, Token(Star, "*"))
    ensures Spellable(al, Token(ParenLeft, "(")) && Spellable(al, Token(ParenRight, ")"))
    ensures Spellable(al, Token(BracketLeft, "[")) && Spellable(al, Token(BracketRight, "]"))
    ensures Spellable(al, Token(BraceLeft, "{")) && Spellable(al, Token(BraceRight, "}"))
  {
  }

  lemma KeywordsAreSpellable(al: Alphabet)
    requires Usual(al)
    ensures Spellable(al, Token(FuncKey, "func")) && Spellable(al, Token(ChanKey, "chan")) && Spellable(al, Token(MapKey, "map"))
    ensures Spellable(al, Token(StructKey, "struct")) && Spellable(al, Token(InterfaceKey, "interface"))
  {
  }

  predicate AllWellNamed(al: Alphabet, ps: seq<Perm>) {
    forall i :: 0 <= i < |ps| ==> WellNamed(al, ps[i])
  }

  lemma {:induction false} RenderIsSpellable(al: Alphabet, p: Perm)
    requires Usual(al) && Writable(p) && WellNamed(al, p)
    ensures AllSpellable(al, Render(p))
    decreases p, 2
  {
    hide Usual, Spellable;
    match p
    case Wildcard => PunctuationIsSpellable(al);
    case Base(b) => SpellingIsSpellable(al, b);
    case Node(_, b, _) =>
      SpellingIsSpellable(al, b);
      BodyIsSpellable(al, p);
  }

  lemma {:induction false} BodyIsSpellable(al: Alphabet, p: Perm)
    requires Usual(al) && Writable(p) && p.Node? && WellNamed(al, p)
    ensures AllSpellable(al, RenderBody(p))
    decreases p, 1
  {
    hide RenderBody;
    match p.kind
    case Pointer | Chan | Array | Slice | Map => ElementsAreSpellable(al, p);
    case Struct => FieldsAreSpellable(al, p);
    case Interface => FieldsAreSpellable(al, p);
    case Func(_, _, _) => FuncIsSpellable(al, p);
  }

  lemma AroundSpellable(al: Alphabet, key: Token, open: Token, inner: seq<Token>, close: Token)
    requires Spellable(al, key) && Spellable(al, open) && AllSpellable(al, inner) && Spellable(al, close)
    ensures AllSpellable(al, [key] + [open] + inner + [close])
  {
    hide Spellable;
  }

  lemma FieldsBody(p: Perm)
    requires Writable(p) && p.Node? && (p.kind.Struct? || p.kind.Interface?)
    ensures RenderBody(p) == (if p.kind.Struct? then T(StructKey, "struct") else T(InterfaceKey, "interface")) + T(BraceLeft, "{")
      + RenderParts(SEMICOLON, p.parts, 0, |p.parts|) + T(BraceRight, "}")
  {
    hide RenderParts;
  }

  lemma {:induction false} FieldsAreSpellable(al: Alphabet, p: Perm)
    requires Usual(al) && Writable(p) && p.Node? && (p.kind.Struct? || p.kind.Interface?) && WellNamed(al, p)
    ensures AllSpellable(al, RenderBody(p))
    decreases p, 0
  {
    hide Keyword, Usual, Spellable, RenderParts, RenderBody;
    PunctuationIsSpellable(al);
    KeywordsAreSpellable(al);
    FieldsBody(p);
    PartsAreSpellable(al, p.parts, SEMICOLON, 0, |p.parts|);
    var key := if p.kind.Struct? then Token(StructKey, "struct") else Token(InterfaceKey, "interface");
    var inner := RenderParts(SEMICOLON, p.parts, 0, |p.parts|);
    hide AllSpellable;
    AroundSpellable(al, key, Token(BraceLeft, "{"), inner, Token(BraceRight, "}"));
  }

  lemma {:induction false} FuncIsSpellable(al: Alphabet, p: Perm)
    requires Usual(al) && Writable(p) && p.Node? && p.kind.Func? && WellNamed(al, p)
    ensures AllSpellable(al, RenderBody(p))
    decreases p, 0
  {
    hide Keyword, Usual, Spellable, RenderBody, RenderGroup, RenderSignature;
    var parts, rs, hi := p.parts, p.kind.receivers, p.kind.receivers + p.kind.params;
    KeywordsAreSpellable(al);
    FuncBody(p);
    GroupIsSpellable(al, parts, 0, rs);
    SignatureIsSpellable(al, p.kind.name, parts, rs, hi);
  }

  lemma {:induction false} ElementsAreSpellable(al: Alphabet, p: Perm)
    requires Usual(al) && Writable(p) && p.Node? && WellNamed(al, p)
    requires p.kind.Pointer? || p.kind.Chan? || p.kind.Array? || p.kind.Slice? || p.kind.Map?
    ensures AllSpellable(al, RenderBody(p))
    decreases p, 0
  {
    hide Usual, Spellable, RenderParts, Render, RenderGroup, RenderSignature, Keyword;
    PunctuationIsSpellable(al);
    KeywordsAreSpellable(al);
    RenderIsSpellable(al, p.parts[0]);
    if p.kind.Map? {
      RenderIsSpellable(al, p.parts[1]);
    }
  }

  lemma {:induction false} PartsAreSpellable(al: Alphabet, ps: seq<Perm>, sep: Token, lo: nat, hi: nat)
    requires Usual(al) && lo <= hi <= |ps| && AllWritable(ps) && AllWellNamed(al, ps) && Spellable(al, sep)
    ensures AllSpellable(al, RenderParts(sep, ps, lo, hi))
    decreases ps, 0, hi - lo
  {
    hide Usual, Spellable, Render;
    if lo < hi {
      RenderIsSpellable(al, ps[lo]);
      PartsAreSpellable(al, ps, sep, lo + 1, hi);
    }
  }

  lemma {:induction false} GroupIsSpellable(al: Alphabet, ps: seq<Perm>, lo: nat, hi: nat)
    requires Usual(al) && lo <= hi <= |ps| && AllWritable(ps) && AllWellNamed(al, ps)
    ensures AllSpellable(al, RenderGroup(ps, lo, hi))
    decreases ps, 1, 0
  {
    hide Usual, Spellable, Render, RenderParts;
    PunctuationIsSpellable(al);
    PartsAreSpellable(al, ps, COMMA, lo, hi);
  }

  lemma {:induction false} SignatureIsSpellable(al: Alphabet, name: string, ps: seq<Perm>, lo: nat, hi: nat)
    requires Usual(al) && lo <= hi <= |ps| && AllWritable(ps) && AllWellNamed(al, ps)
    requires name != "" ==> IsRun(al, name) && Keyword(name).Word?
    ensures AllSpellable(al, RenderSignature(name, ps, lo, hi))
    decreases ps, 2, 0
  {
    hide Usual, Spellable, RenderGroup, Keyword;
    if name != "" {
      WordIsSpellable(al, name);
    }
    GroupIsSpellable(al, ps, lo, hi);
    GroupIsSpellable(al, ps, hi, |ps|);
  }

  /** A permission as text. */
  function WrittenPerm(p: Perm): string
    requires Writable(p)
  {
    Written(Render(p))
  }

  /** Scanning and parsing the text of a permission gives the permission back. */
  lemma ReadInvertsWrite(al: Alphabet, p: Perm)
    requires Usual(al) && Writable(p) && WellNamed(al, p)
    ensures Parse(Tokens(al, WrittenPerm(p), 0)) == Some(p)
  {
    RenderIsSpellable(al, p);
    TokensOfWritten(al, "", Render(p));
    assert "" + WrittenPerm(p) == WrittenPerm(p);
    ParseInvertsRender(p);
  }

  // ----- how base permissions are printed

  const UNOWNED_ANY := Rights(false, true, true, false, false)

  /** The printed form of a base permission: a single letter for the common ones, else letter by letter. */
  function String(b: Rights): string {
    var owned := Letter(b.o, 'o');
    var rest := b.(o := false);
    if rest == MUTABLE then owned + "m"
    else if rest == Rights(false, true, false, true, true) then owned + "l"
    else if rest == Rights(false, true, false, false, true) then owned + "v"
    else if rest == READ then owned + "r"
    else if rest == UNOWNED_ANY then "a"
    else if rest == NO_RIGHTS then owned + "n"
    else owned + Letter(b.r, 'r') + Letter(b.w, 'w') + Letter(b.xr, 'R') + Letter(b.xw, 'W')
  }

  lemma Shortcut(b: Rights, c: char)
    requires LetterRights(c).Some?
    ensures WordRights(Letter(b.o, 'o') + [c]) == Some(Or(if b.o then OWNED else NO_RIGHTS, LetterRights(c).value))
  {
    LetterWord(b.o, 'o');
    LetterWord(true, c);
    WordRightsConcat(Letter(b.o, 'o'), Letter(true, c));
  }

  /** Printing a base permission and reading it back gives it back, except that reading and writing without owning
      is printed like owning too, and so read back as owned. */
  lemma PrintedIsReadBack(b: Rights)
    ensures WordRights(String(b)) == Some(b) <==> b != UNOWNED_ANY
    ensures WordRights(String(UNOWNED_ANY)) == Some(UNOWNED_ANY.(o := true))
  {
    hide WordRights;
    Shortcut(NO_RIGHTS, 'a');
    assert Letter(false, 'o') + ['a'] == "a";
    var rest := b.(o := false);
    if rest == MUTABLE { Shortcut(b, 'm'); }
    else if rest == Rights(false, true, false, true, true) { Shortcut(b, 'l'); }
    else if rest == Rights(false, true, false, false, true) { Shortcut(b, 'v'); }
    else if rest == READ { Shortcut(b, 'r'); }
    else if rest == UNOWNED_ANY { }
    else if rest == NO_RIGHTS { Shortcut(b, 'n'); }
    else {
      assert String(b) == Spelling(b);
      SpellingRights(b);
    }
  }

  /** A text that is a single word of letters is that token. */
  lemma WordToken(al: Alphabet, word: string)
    requires Usual(al) && word != "" && LettersOnly(al, word) && Keyword(word).Word?
    ensures Tokens(al, word, 0) == [Token(Word, word)]
  {
    hide LetterRights, WordRights;
    assert al.letter(word[0]);
    RunOfLetters(al, word, 0, |word|);
    assert word[0..|word|] == word;
    AtEnd(al, word);
    assert Tokens(al, word, |word|) == [];
  }

  /** A text of digits is a number. */
  lemma NumberToken(al: Alphabet, digits: string)
    requires Sane(al) && digits != "" && forall c <- digits :: al.digit(c) && !al.letter(c) && Punctuation(c).Illegal? && c != NUL
    ensures Tokens(al, digits, 0) == [Token(Number, digits)]
  {
    RunOfDigits(al, digits, 0);
    assert digits[0] in digits;
    assert digits[0..|digits|] == digits;
    AtEnd(al, digits);
    assert Tokens(al, digits, |digits|) == [];
  }

  lemma {:induction false} RunOfDigits(al: Alphabet, digits: string, i: nat)
    requires i <= |digits| && forall c <- digits :: al.digit(c)
    ensures RunEnd(al.digit, digits, i) == |digits|
    decreases |digits| - i
  {
    if i < |digits| {
      RunOfDigits(al, digits, i + 1);
    }
  }

  lemma WordParsed(word: string, b: Rights)
    requires WordRights(word) == Some(b)
    ensures Parse([Token(Word, word)]) == Some(Base(b))
  {
    var ts := [Token(Word, word)];
    assert Tail(ts) == [];
    NothingFollows(b, []);
    assert ParseBase(ts) == Got(b, []);
    assert ParseRest(b, true, []) == Got(Base(b), []);
    assert ParseInner(ts) == Got(Base(b), []);
  }

  /** A letter, perhaps after an `o`, is a word. */
  lemma ShortWord(al: Alphabet, owned: bool, c: char)
    requires Usual(al) && c in "orwRWnmalv"
    ensures var s := Letter(owned, 'o') + [c]; s != "" && LettersOnly(al, s) && Keyword(s).Word?
  {
    var w := "orwRWn";
    assert al.letter(w[0]) && al.letter(w[1]) && al.letter(w[2]) && al.letter(w[3]) && al.letter(w[4]) && al.letter(w[5]);
    assert al.letter("map"[0]) && al.letter("map"[1]) && al.letter("lv"[0]) && al.letter("lv"[1]);
  }

  lemma PrintedLetters(al: Alphabet, b: Rights)
    requires Usual(al)
    ensures String(b) != "" && LettersOnly(al, String(b)) && Keyword(String(b)).Word?
  {
    hide LettersOnly, Keyword, Letter, WordRights, Usual;
    var rest := b.(o := false);
    if rest == MUTABLE { ShortWord(al, b.o, 'm'); }
    else if rest == Rights(false, true, false, true, true) { ShortWord(al, b.o, 'l'); }
    else if rest == Rights(false, true, false, false, true) { ShortWord(al, b.o, 'v'); }
    else if rest == READ { ShortWord(al, b.o, 'r'); }
    else if rest == UNOWNED_ANY {
      ShortWord(al, false, 'a');
      assert Letter(false, 'o') + ['a'] == "a" by { AbsentLetter('o'); }
    }
    else if rest == NO_RIGHTS { ShortWord(al, b.o, 'n'); }
    else {
      assert String(b) == Spelling(b);
      SpellingRights(b);
      SpellingBits(al, b);
      NotKeyword(String(b));
    }
  }

  lemma AbsentLetter(c: char)
    ensures Letter(false, c) == ""
  {
  }

  /** Scanning and parsing a printed base permission gives it back, except for reading and writing without owning,
      which gives the owned one. */
  lemma PrintedIsParsed(al: Alphabet, b: Rights)
    requires Usual(al)
    ensures Parse(Tokens(al, String(b), 0)) == Some(Base(if b == UNOWNED_ANY then b.(o := true) else b))
    ensures Parse(Tokens(al, String(b), 0)) == Some(Base(b)) <==> b != UNOWNED_ANY
  {
    hide WordRights, String, Usual, Parse, Tokens;
    PrintedLetters(al, b);
    WordToken(al, String(b));
    PrintedIsReadBack(b);
    WordParsed(String(b), if b == UNOWNED_ANY then b.(o := true) else b);
  }
}
