/** The recursive-descent parser over the scanner; each method reads what the grammar says from the stream. */
module Parsing {
  import opened Wrappers
  import opened BasePermission
  import opened Permission
  import opened Scanning
  import Grammar
  import Text

  /** What a parsing method returned, and the stream it left, are what the grammar says. */
  ghost predicate Reads<V>(spec: Grammar.Parsed<V>, v: Option<V>, rest: seq<Token>) {
    if spec.Fail? then v == None else v == Some(spec.value) && rest == spec.rest
  }

  /** A word with an unknown letter stays unreadable whatever follows. */
  lemma {:induction false} UnknownLetter(word: string, n: nat)
    requires n <= |word| && Grammar.WordRights(word[..n]).None?
    ensures Grammar.WordRights(word).None?
    decreases |word| - n
  {
    if n == |word| {
      assert word[..n] == word;
    } else {
      assert word[..n + 1][..n] == word[..n];
      UnknownLetter(word, n + 1);
    }
  }

  lemma PrependTwice(a: seq<Perm>, b: seq<Perm>, more: Grammar.Parsed<seq<Perm>>)
    ensures Grammar.Prepend(a, Grammar.Prepend(b, more)) == Grammar.Prepend(a + b, more)
  {
    if more.Got? {
      assert a + (b + more.value) == a + b + more.value;
    }
  }

  class Parser {
    const sc: Scanner

    constructor (al: Alphabet, input: string)
      requires Sane(al)
      ensures fresh(sc) && sc.Valid() && sc.Stream() == Tokens(al, input, 0)
    {
      sc := new Scanner(al, input);
    }

    /** A whole annotation; None is an error. */
    method Parse() returns (p: Option<Perm>)
      requires sc.Valid()
      modifies sc
      ensures p == Grammar.Parse(old(sc.Stream()))
    {
      p := ParseInner();
      if p.Some? {
        var end := sc.Expect([EndOfFile]);
        if end == None {
          return None;
        }
      }
    }

    method ParseInner() returns (p: Option<Perm>)
      requires sc.Valid()
      modifies sc
      ensures sc.Valid() && Reads(Grammar.ParseInner(old(sc.Stream())), p, sc.Stream())
      decreases |sc.Stream()|, 3
    {
      hide Grammar.ParseList, Grammar.ParseMore, Grammar.ParseListUntil, Grammar.ParseMap, Grammar.ParseSliceOrArray,
        Grammar.ParseStruct, Grammar.ParseInterface, Grammar.ParseFunc, Grammar.ParseSignature,
        Grammar.WordRights, Grammar.Prefixed;
      assert Head(sc.Stream()).typ.Illegal? ==> Grammar.ParseRest(OWNED_MUTABLE, false, sc.Stream()).Fail?;
      var tok, ok := sc.Accept([Underscore]);
      if tok == None {
        return None;
      }
      if ok {
        return Some(Wildcard);
      }
      if !tok.value.typ.Word? {
        p := ParseRest(OWNED_MUTABLE, false);
        return;
      }
      var word := ParseBasePermission();
      if word == None {
        return None;
      }
      p := ParseRest(word.value, true);
    }

    /** What follows a base permission, or starts without one. */
    method ParseRest(b: Rights, haveBase: bool) returns (p: Option<Perm>)
      requires sc.Valid() && (!haveBase ==> !Head(sc.Stream()).typ.Word?)
      modifies sc
      ensures sc.Valid() && Reads(Grammar.ParseRest(b, haveBase, old(sc.Stream())), p, sc.Stream())
      decreases |sc.Stream()|, 2
    {
      hide Grammar.ParseList, Grammar.ParseMore, Grammar.ParseListUntil, Grammar.ParseMap, Grammar.ParseSliceOrArray,
        Grammar.ParseStruct, Grammar.ParseInterface, Grammar.ParseFunc, Grammar.ParseSignature, Grammar.ParseInner,
        Grammar.WordRights, Grammar.Prefixed;
      var tok := sc.Peek();
      if tok == None {
        return None;
      }
      match tok.value.typ {
        case FuncKey => p := ParseFunc(b);
        case ParenLeft => p := ParseFunc(b);
        case InterfaceKey => p := ParseInterface(b);
        case MapKey => p := ParseMap(b);
        case ChanKey => p := ParseChan(b);
        case StructKey => p := ParseStruct(b);
        case Star => p := ParsePointer(b);
        case BracketLeft => p := ParseSliceOrArray(b);
        case _ =>
          // Without a base permission so far one is expected here, and this is not one.
          p := if haveBase then Some(Base(b)) else None;
      }
    }

    /** A word of permission letters. */
    method ParseBasePermission() returns (b: Option<Rights>)
      requires sc.Valid()
      modifies sc
      ensures sc.Valid() && Reads(Grammar.ParseBase(old(sc.Stream())), b, sc.Stream())
    {
      var tok := sc.Expect([Word]);
      if tok == None {
        return None;
      }
      var word, rights := tok.value.value, NO_RIGHTS;
      for i := 0 to |word|
        invariant Grammar.WordRights(word[..i]) == Some(rights)
      {
        assert word[..i + 1][..i] == word[..i];
        var letter := Grammar.LetterRights(word[i]);
        if letter == None {
          UnknownLetter(word, i + 1);
          return None;
        }
        rights := Or(rights, letter.value);
      }
      assert word[..|word|] == word;
      b := Some(rights);
    }

    /** One or more permissions, separated. */
    method ParseFieldList(sep: TokenType) returns (ps: Option<seq<Perm>>)
      requires sc.Valid() && (sep.Comma? || sep.Semicolon?)
      modifies sc
      ensures sc.Valid() && Reads(Grammar.ParseList(sep, old(sc.Stream())), ps, sc.Stream())
      decreases |sc.Stream()|, 4
    {
      hide Grammar.ParseInner;
      var one := ParseInner();
      if one == None {
        return None;
      }
      var perms := [one.value];
      var tok := sc.Peek();
      while tok.Some? && tok.value.typ == sep
        invariant sc.Valid() && (tok.Some? ==> |sc.Stream()| < |old(sc.Stream())| && tok == Some(Head(sc.Stream())) && !tok.value.typ.Illegal?)
        invariant Grammar.ParseList(sep, old(sc.Stream()))
               == if tok == None then Grammar.Fail else Grammar.Prepend(perms, Grammar.ParseMore(sep, sc.Stream()))
        decreases if tok.Some? then |sc.Stream()| else 0
      {
        ghost var perms0, at := perms, sc.Stream();
        var _ := sc.Scan();
        one := ParseInner();
        assert Grammar.ParseMore(sep, at) == Grammar.ParseList(sep, Tail(at));
        if one == None {
          return None;
        }
        perms := perms + [one.value];
        PrependTwice(perms0, [one.value], Grammar.ParseMore(sep, sc.Stream()));
        tok := sc.Peek();
      }
      assert perms + [] == perms;
      ps := if tok == None then None else Some(perms);
    }

    /** A list up to a closing token, possibly empty. */
    method ParseFieldListUntil(sep: TokenType, close: TokenType) returns (ps: Option<seq<Perm>>)
      requires sc.Valid() && (sep.Comma? || sep.Semicolon?) && (close.ParenRight? || close.BraceRight?)
      modifies sc
      ensures sc.Valid() && Reads(Grammar.ParseListUntil(sep, close, old(sc.Stream())), ps, sc.Stream())
      decreases |sc.Stream()|, 5
    {
      hide Grammar.ParseInner;
      var tok := sc.Peek();
      if tok == None {
        return None;
      }
      ps := Some([]);
      if tok.value.typ != close {
        ps := ParseFieldList(sep);
      }
      if ps.Some? {
        var end := sc.Expect([close]);
        if end == None {
          return None;
        }
      }
    }

    method ParseFunc(b: Rights) returns (p: Option<Perm>)
      requires sc.Valid() && (Head(sc.Stream()).typ.FuncKey? || Head(sc.Stream()).typ.ParenLeft?)
      modifies sc
      ensures sc.Valid() && Reads(Grammar.ParseFunc(b, old(sc.Stream())), p, sc.Stream())
      decreases |sc.Stream()|, 1
    {
      hide Grammar.ParseSignature, Grammar.ParseInner, Grammar.ParseList;
      var receivers: seq<Perm> := [];
      var tok, ok := sc.Accept([ParenLeft, FuncKey]);
      if tok == None {
        return None;
      }
      if tok.value.typ.ParenLeft? {
        var list := ParseFieldList(Comma);
        if list == None {
          return None;
        }
        var close := sc.Expect([ParenRight]);
        if close == None {
          return None;
        }
        var key := sc.Expect([FuncKey]);
        if key == None {
          return None;
        }
        receivers := list.value;
      }
      p := ParseSignature(b, receivers);
    }

    /** A function after its keyword. */
    method ParseSignature(b: Rights, receivers: seq<Perm>) returns (p: Option<Perm>)
      requires sc.Valid()
      modifies sc
      ensures sc.Valid() && Reads(Grammar.ParseSignature(b, receivers, old(sc.Stream())), p, sc.Stream())
      decreases |sc.Stream()|, 6
    {
      hide Grammar.ParseListUntil, Grammar.ParseResults, Grammar.ParseInner, Grammar.ParseList;
      var name := "";
      var tok, ok := sc.Accept([Word]);
      if tok == None {
        return None;
      }
      if ok {
        name := tok.value.value;
      }
      var open := sc.Expect([ParenLeft]);
      if open == None {
        return None;
      }
      var params := ParseFieldListUntil(Comma, ParenRight);
      if params == None {
        return None;
      }
      var results := ParseResults();
      if results == None {
        return None;
      }
      p := Some(Node(Func(name, |receivers|, |params.value|), b, receivers + params.value + results.value));
    }

    /** Results in parentheses, or a single one that starts with a word. */
    method ParseResults() returns (ps: Option<seq<Perm>>)
      requires sc.Valid()
      modifies sc
      ensures sc.Valid() && Reads(Grammar.ParseResults(old(sc.Stream())), ps, sc.Stream())
      decreases |sc.Stream()|, 5
    {
      var tok, ok := sc.Accept([ParenLeft]);
      if tok == None {
        return None;
      }
      if ok {
        ps := ParseFieldList(Comma);
        if ps.Some? {
          var close := sc.Expect([ParenRight]);
          if close == None {
            return None;
          }
        }
      } else if tok.value.typ.Word? {
        var one := ParseInner();
        ps := if one == None then None else Some([one.value]);
      } else {
        ps := Some([]);
      }
    }

    method ParseSliceOrArray(b: Rights) returns (p: Option<Perm>)
      requires sc.Valid() && Head(sc.Stream()).typ.BracketLeft?
      modifies sc
      ensures sc.Valid() && Reads(Grammar.ParseSliceOrArray(b, old(sc.Stream())), p, sc.Stream())
      decreases |sc.Stream()|, 1
    {
      var open := sc.Expect([BracketLeft]);
      var tok, isArray := sc.Accept([Number, Underscore]);
      if tok == None {
        return None;
      }
      var close := sc.Expect([BracketRight]);
      if close == None {
        return None;
      }
      p := ParseElement(if isArray then Array else Slice, b);
    }

    method ParseChan(b: Rights) returns (p: Option<Perm>)
      requires sc.Valid() && Head(sc.Stream()).typ.ChanKey?
      modifies sc
      ensures sc.Valid() && Reads(Grammar.Prefixed(Chan, b, Grammar.ParseInner(Tail(old(sc.Stream())))), p, sc.Stream())
      decreases |sc.Stream()|, 1
    {
      var key := sc.Expect([ChanKey]);
      p := ParseElement(Chan, b);
    }

    method ParsePointer(b: Rights) returns (p: Option<Perm>)
      requires sc.Valid() && Head(sc.Stream()).typ.Star?
      modifies sc
      ensures sc.Valid() && Reads(Grammar.Prefixed(Pointer, b, Grammar.ParseInner(Tail(old(sc.Stream())))), p, sc.Stream())
      decreases |sc.Stream()|, 1
    {
      var star := sc.Expect([Star]);
      p := ParseElement(Pointer, b);
    }

    /** The one part of a pointer, channel, array or slice. */
    method ParseElement(kind: Kind, b: Rights) returns (p: Option<Perm>)
      requires sc.Valid()
      modifies sc
      ensures sc.Valid() && Reads(Grammar.Prefixed(kind, b, Grammar.ParseInner(old(sc.Stream()))), p, sc.Stream())
      decreases |sc.Stream()|, 4
    {
      var inner := ParseInner();
      p := if inner == None then None else Some(Node(kind, b, [inner.value]));
    }

    method CheckMethods(fields: seq<Perm>) returns (ok: bool)
      ensures ok == Grammar.AllMethods(fields)
    {
      for i := 0 to |fields|
        invariant Grammar.AllMethods(fields[..i])
      {
        if !Grammar.IsMethod(fields[i]) {
          return false;
        }
      }
      assert fields[..|fields|] == fields;
      ok := true;
    }

    method ParseInterface(b: Rights) returns (p: Option<Perm>)
      requires sc.Valid() && Head(sc.Stream()).typ.InterfaceKey?
      modifies sc
      ensures sc.Valid() && Reads(Grammar.ParseInterface(b, old(sc.Stream())), p, sc.Stream())
      decreases |sc.Stream()|, 1
    {
      hide Grammar.AllMethods, Grammar.ParseListUntil, Grammar.ParseInner, Grammar.ParseList;
      var key := sc.Expect([InterfaceKey]);
      var open := sc.Expect([BraceLeft]);
      if open == None {
        return None;
      }
      var fields := ParseFieldListUntil(Semicolon, BraceRight);
      if fields == None {
        return None;
      }
      var ok := CheckMethods(fields.value);
      if !ok {
        return None;
      }
      p := Some(Node(Interface, b, fields.value));
    }

    method ParseMap(b: Rights) returns (p: Option<Perm>)
      requires sc.Valid() && Head(sc.Stream()).typ.MapKey?
      modifies sc
      ensures sc.Valid() && Reads(Grammar.ParseMap(b, old(sc.Stream())), p, sc.Stream())
      decreases |sc.Stream()|, 1
    {
      hide Grammar.ParseInner;
      var map_ := sc.Expect([MapKey]);
      var open := sc.Expect([BracketLeft]);
      if open == None {
        return None;
      }
      var key := ParseInner();
      if key == None {
        return None;
      }
      var close := sc.Expect([BracketRight]);
      if close == None {
        return None;
      }
      var val := ParseInner();
      p := if val == None then None else Some(Node(Map, b, [key.value, val.value]));
    }

    method ParseStruct(b: Rights) returns (p: Option<Perm>)
      requires sc.Valid() && Head(sc.Stream()).typ.StructKey?
      modifies sc
      ensures sc.Valid() && Reads(Grammar.ParseStruct(b, old(sc.Stream())), p, sc.Stream())
      decreases |sc.Stream()|, 1
    {
      hide Grammar.ParseInner, Grammar.ParseList;
      var key := sc.Expect([StructKey]);
      var open := sc.Expect([BraceLeft]);
      if open == None {
        return None;
      }
      var fields := ParseFieldList(Semicolon);
      if fields == None {
        return None;
      }
      var close := sc.Expect([BraceRight]);
      p := if close == None then None else Some(Node(Struct, b, fields.value));
    }
  }

  /** Reads an annotation: what the grammar says of its tokens, and so any permission from its written form. */
  method Read(al: Alphabet, input: string) returns (p: Option<Perm>)
    requires Sane(al)
    ensures p == Grammar.Parse(Tokens(al, input, 0))
    ensures forall q :: Text.Usual(al) && Grammar.Writable(q) && Text.WellNamed(al, q) && input == Text.WrittenPerm(q) ==> p == Some(q)
  {
    var parser := new Parser(al, input);
    p := parser.Parse();
    forall q | Text.Usual(al) && Grammar.Writable(q) && Text.WellNamed(al, q) && input == Text.WrittenPerm(q)
      ensures p == Some(q)
    {
      Text.ReadInvertsWrite(al, q);
    }
  }
}
