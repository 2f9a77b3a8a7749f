/** The scanner of the annotation language: characters to tokens, with one token of push-back. */
module Scanning {
  import opened Wrappers

  /** Illegal stands for a character that cannot start a token; meeting it abandons the parse. */
  datatype TokenType =
    | EndOfFile | ParenLeft | ParenRight | Comma | Word | FuncKey | InterfaceKey | MapKey | ChanKey | ErrorKey | StructKey
    | Number | Star | BracketLeft | BracketRight | BraceLeft | BraceRight | Semicolon | Underscore | Illegal

  datatype Token = Token(typ: TokenType, value: string)

  const END := Token(EndOfFile, "")
  const ILLEGAL := Token(Illegal, "")

  /** The classes of characters; in the original those of Unicode. */
  datatype Alphabet = Alphabet(letter: char -> bool, digit: char -> bool, space: char -> bool)

  /** The end of the input, and a NUL character in it, look the same to the scanner. */
  const NUL: char := '\0'

  /** NUL belongs to no class. */
  predicate Sane(al: Alphabet) {
    !al.letter(NUL) && !al.digit(NUL)
  }

  // ----- the tokens of a text

  /** Where a run of accepted characters that starts at `i` ends. A NUL that ends the run is swallowed. */
  function RunEnd(accepts: char -> bool, input: string, i: nat): (end: nat)
    requires i <= |input|
    ensures i <= end <= |input|
    ensures i < |input| && (accepts(input[i]) || input[i] == NUL) ==> end > i
    decreases |input| - i
  {
    if i == |input| then i
    else if accepts(input[i]) then RunEnd(accepts, input, i + 1)
    else if input[i] == NUL then i + 1
    else i
  }

  /** A word that is a keyword has the keyword's type. */
  function Keyword(value: string): TokenType {
    if value == "func" then FuncKey
    else if value == "interface" then InterfaceKey
    else if value == "map" then MapKey
    else if value == "chan" then ChanKey
    else if value == "error" then ErrorKey
    else if value == "struct" then StructKey
    else Word
  }

  /** Tokens of a single character. */
  function Punctuation(c: char): TokenType {
    match c
    case '(' => ParenLeft
    case ')' => ParenRight
    case '*' => Star
    case '[' => BracketLeft
    case ']' => BracketRight
    case '{' => BraceLeft
    case '}' => BraceRight
    case ',' => Comma
    case ';' => Semicolon
    case '_' => Underscore
    case _ => Illegal
  }

  /** A token and the position after it. */
  datatype Lexeme = Lexeme(token: Token, next: nat)

  /** The token that starts at or after position `i`. */
  function Next(al: Alphabet, input: string, i: nat): (l: Lexeme)
    requires i <= |input|
    ensures i <= l.next <= |input|
    ensures l.next == i ==> l.token == END || l.token == ILLEGAL
    ensures l.token.typ.EndOfFile? ==> l.token == END
    ensures l.token.typ.Illegal? ==> l.token == ILLEGAL
    decreases |input| - i
  {
    if i == |input| then Lexeme(END, i)
    else
      var c := input[i];
      if c == NUL then Lexeme(END, i + 1)
      else if !Punctuation(c).Illegal? then Lexeme(Token(Punctuation(c), [c]), i + 1)
      else if al.letter(c) then
        var end := RunEnd(al.letter, input, i);
        Lexeme(Token(Keyword(input[i..end]), input[i..end]), end)
      else if al.digit(c) then
        var end := RunEnd(al.digit, input, i);
        Lexeme(Token(Number, input[i..end]), end)
      else if al.space(c) then Next(al, input, i + 1)
      else Lexeme(ILLEGAL, i)
  }

  /** A token in front of a stream; END tokens at the end of a stream are left out. */
  function Cons(t: Token, rest: seq<Token>): seq<Token> {
    if t == END && rest == [] then [] else [t] + rest
  }

  /** The tokens of the input from position `i` on, up to an illegal character. */
  function Tokens(al: Alphabet, input: string, i: nat): seq<Token>
    requires i <= |input|
    decreases |input| - i
  {
    var l := Next(al, input, i);
    if l.token == ILLEGAL then [ILLEGAL]
    else if l.next == i then []
    else Cons(l.token, Tokens(al, input, l.next))
  }

  /** The next token of a stream; at its end, END forever. */
  function Head(ts: seq<Token>): Token {
    if ts == [] then END else ts[0]
  }

  function Tail(ts: seq<Token>): seq<Token> {
    if ts == [] then [] else ts[1..]
  }

  lemma ConsHead(t: Token, rest: seq<Token>)
    ensures Head(Cons(t, rest)) == t && Tail(Cons(t, rest)) == rest
  {
  }

  /** The stream from a position is the next token and the stream after it. */
  lemma TokensStep(al: Alphabet, input: string, i: nat)
    requires i <= |input|
    ensures var l := Next(al, input, i);
      && Head(Tokens(al, input, i)) == l.token
      && (l.token != ILLEGAL ==> Tokens(al, input, i) == Cons(l.token, Tokens(al, input, l.next)))
  {
    var l := Next(al, input, i);
    if l.next > i && l.token != ILLEGAL {
      ConsHead(l.token, Tokens(al, input, l.next));
    }
  }

  class Scanner {
    const al: Alphabet
    const input: string
    var offset: nat
    var start: nat
    var buffer: Token
    var hasBuffer: bool

    constructor (al: Alphabet, input: string)
      requires Sane(al)
      ensures this.al == al && this.input == input
      ensures Valid() && Stream() == Tokens(al, input, 0)
    {
      this.al, this.input := al, input;
      offset, start, buffer, hasBuffer := 0, 0, END, false;
    }

    ghost predicate Valid()
      reads this
    {
      Sane(al) && start <= |input| && offset <= |input| && (hasBuffer ==> !buffer.typ.Illegal? && (buffer.typ.EndOfFile? ==> buffer == END))
    }

    /** The tokens still to come: the one pushed back, if any, and those of the rest of the input. */
    ghost function Stream(): seq<Token>
      requires Valid()
      reads this
    {
      if hasBuffer then Cons(buffer, Tokens(al, input, offset)) else Tokens(al, input, offset)
    }

    /** Reads one character; at the end of the input, NUL. */
    method ReadRune() returns (c: char)
      requires Valid() && !hasBuffer
      modifies this`offset, this`start
      ensures Valid()
      ensures old(offset) == |input| ==> c == NUL && offset == old(offset) && start == old(start)
      ensures old(offset) < |input| ==> c == input[old(offset)] && offset == old(offset) + 1 && start == old(offset)
    {
      if offset == |input| {
        return NUL;
      }
      c := input[offset];
      start := offset;
      offset := offset + 1;
    }

    method UnreadRune()
      requires Valid()
      modifies this`offset
      ensures Valid() && offset == start
    {
      offset := start;
    }

    /** Scans a run of accepted characters. */
    method ScanWhile(accepts: char -> bool) returns (value: string)
      requires Valid() && !hasBuffer && !accepts(NUL)
      modifies this`offset, this`start
      ensures Valid() && offset == RunEnd(accepts, input, old(offset)) && value == input[old(offset)..offset]
    {
      var from := offset;
      var c := ReadRune();
      while accepts(c)
        invariant Valid() && !hasBuffer
        invariant c == NUL || (from <= start < |input| && offset == start + 1 && c == input[start])
        invariant RunEnd(accepts, input, from) == if c == NUL then offset else RunEnd(accepts, input, start)
        decreases |input| - offset, if accepts(c) then 1 else 0
      {
        c := ReadRune();
      }
      if c != NUL {
        UnreadRune();
      }
      value := input[from..offset];
    }

    /** The next token from the input, past white space. None is the panic at an illegal character. */
    method ScanInput() returns (t: Option<Token>)
      requires Valid() && !hasBuffer
      modifies this`offset, this`start
      ensures Valid()
      ensures var l := Next(al, input, old(offset));
        if l.token == ILLEGAL then t == None else t == Some(l.token) && offset == l.next
    {
      while true
        invariant Valid() && !hasBuffer && Next(al, input, offset) == Next(al, input, old(offset))
        decreases |input| - offset
      {
        var c := ReadRune();
        if c == NUL {
          return Some(END);
        }
        if !Punctuation(c).Illegal? {
          return Some(Token(Punctuation(c), [c]));
        }
        if al.letter(c) {
          UnreadRune();
          var word := ScanWhile(al.letter);
          return Some(Token(Keyword(word), word));
        }
        if al.digit(c) {
          UnreadRune();
          var digits := ScanWhile(al.digit);
          return Some(Token(Number, digits));
        }
        if !al.space(c) {
          return None;
        }
      }
    }

    /** The next token: the one pushed back, or one from the input. */
    method Scan() returns (t: Option<Token>)
      requires Valid()
      modifies this
      ensures Valid() && !hasBuffer
      ensures if Head(old(Stream())).typ.Illegal? then t == None
              else t == Some(Head(old(Stream()))) && Stream() == Tail(old(Stream()))
    {
      if hasBuffer {
        ConsHead(buffer, Tokens(al, input, offset));
        t := Some(buffer);
        buffer, hasBuffer := END, false;
        return;
      }
      TokensStep(al, input, offset);
      t := ScanInput();
      if t.Some? {
        ConsHead(t.value, Stream());
      }
    }

    /** Pushes a token back. */
    method Unscan(t: Token)
      requires Valid() && !hasBuffer && !t.typ.Illegal? && (t.typ.EndOfFile? ==> t == END)
      modifies this`buffer, this`hasBuffer
      ensures Valid() && hasBuffer && Stream() == Cons(t, old(Stream()))
    {
      buffer, hasBuffer := t, true;
    }

    /** The next token, which stays the next token. */
    method Peek() returns (t: Option<Token>)
      requires Valid()
      modifies this
      ensures Valid()
      ensures if Head(old(Stream())).typ.Illegal? then t == None else t == Some(Head(old(Stream()))) && Stream() == old(Stream())
    {
      ghost var before := Stream();
      StreamHead();
      t := Scan();
      if t.Some? {
        Unscan(t.value);
      }
    }

    /** The next token, consumed if its type is among the given ones. */
    method Accept(types: seq<TokenType>) returns (t: Option<Token>, ok: bool)
      requires Valid()
      modifies this
      ensures Valid()
      ensures if Head(old(Stream())).typ.Illegal? then t == None
              else (t == Some(Head(old(Stream()))) && ok == (Head(old(Stream())).typ in types)
                    && Stream() == if ok then Tail(old(Stream())) else old(Stream()))
    {
      ok := false;
      StreamHead();
      t := Scan();
      if t.None? {
        return;
      }
      for i := 0 to |types|
        invariant t.value.typ !in types[..i] && !hasBuffer && Valid() && Stream() == Tail(old(Stream()))
      {
        if t.value.typ == types[i] {
          return t, true;
        }
      }
      Unscan(t.value);
    }

    /** The next token, consumed; None if it has another type than the given ones. */
    method Expect(types: seq<TokenType>) returns (t: Option<Token>)
      requires Valid()
      modifies this
      ensures Valid()
      ensures if !Head(old(Stream())).typ.Illegal? && Head(old(Stream())).typ in types
              then t == Some(Head(old(Stream()))) && Stream() == Tail(old(Stream()))
              else t == None
    {
      var ok;
      t, ok := Accept(types);
      if !ok {
        t := None;
      }
    }

    /** A stream is its head in front of its tail. */
    lemma StreamHead()
      requires Valid()
      ensures !Head(Stream()).typ.Illegal? ==> Cons(Head(Stream()), Tail(Stream())) == Stream()
      ensures Head(Stream()).typ.EndOfFile? ==> Head(Stream()) == END
    {
      if hasBuffer {
        ConsHead(buffer, Tokens(al, input, offset));
      } else {
        TokensStep(al, input, offset);
        ConsHead(Next(al, input, offset).token, Tokens(al, input, Next(al, input, offset).next));
      }
    }
  }
}
