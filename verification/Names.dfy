/** Which texts denote permissions: the names that scanning can produce are the only restriction besides the
    grammar's. */
module Naming {
  import opened Wrappers
  import opened BasePermission
  import opened Permission
  import opened Scanning
  import opened Grammar
  import opened Text

  // ----- the words of a text

  /** Every word among the tokens is a run of letters and no keyword. */
  predicate WordsNamed(al: Alphabet, ts: seq<Token>) {
    forall t <- ts :: t.typ.Word? ==> IsRun(al, t.value) && Keyword(t.value).Word?
  }

  lemma {:induction false} RunIsRun(al: Alphabet, input: string, i: nat)
    requires Sane(al) && i < |input| && al.letter(input[i])
    ensures IsRun(al, input[i..RunEnd(al.letter, input, i)])
    decreases |input| - i
  {
    var end := RunEnd(al.letter, input, i);
    var word := input[i..end];
    if i + 1 < |input| && al.letter(input[i + 1]) {
      RunIsRun(al, input, i + 1);
      assert word == [input[i]] + input[i + 1..end];
    }
  }

  lemma {:induction false} NextIsNamed(al: Alphabet, input: string, i: nat)
    requires Sane(al) && i <= |input|
    ensures var t := Next(al, input, i).token; t.typ.Word? ==> IsRun(al, t.value) && Keyword(t.value).Word?
    decreases |input| - i
  {
    if i < |input| {
      var c := input[i];
      if c != NUL && Punctuation(c).Illegal? {
        if al.letter(c) {
          RunIsRun(al, input, i);
        } else if !al.digit(c) && al.space(c) {
          NextIsNamed(al, input, i + 1);
        }
      }
    }
  }

  /** All words of a text are named so. */
  lemma {:induction false} TokensAreNamed(al: Alphabet, input: string, i: nat)
    requires Sane(al) && i <= |input|
    ensures WordsNamed(al, Tokens(al, input, i))
    decreases |input| - i
  {
    hide Next, IsRun;
    var l := Next(al, input, i);
    NextIsNamed(al, input, i);
    if l.token != ILLEGAL && l.next != i {
      TokensAreNamed(al, input, l.next);
    }
  }

  lemma HeadNamed(al: Alphabet, ts: seq<Token>)
    requires WordsNamed(al, ts)
    ensures WordsNamed(al, Tail(ts)) && WordsNamed(al, Tail(Tail(ts)))
    ensures Head(ts).typ.Word? ==> IsRun(al, Head(ts).value) && Keyword(Head(ts).value).Word?
  {
  }

  // ----- parsing invents no names

  predicate NamedPerm(al: Alphabet, p: Parsed<Perm>) {
    p.Got? ==> WellNamed(al, p.value) && WordsNamed(al, p.rest)
  }

  predicate NamedList(al: Alphabet, p: Parsed<seq<Perm>>) {
    p.Got? ==> AllWellNamed(al, p.value) && WordsNamed(al, p.rest)
  }

  lemma {:induction false} InnerNamed(al: Alphabet, ts: seq<Token>)
    requires WordsNamed(al, ts)
    ensures NamedPerm(al, ParseInner(ts))
    decreases |ts|, 3
  {
    hide WordsNamed, IsRun, ParseStructure, ParseRest, WordRights;
    HeadNamed(al, ts);
    if Head(ts).typ.Underscore? {
    } else if Head(ts).typ.Word? {
      var b := ParseBase(ts);
      if b.Got? {
        RestNamed(al, b.value, true, b.rest);
      }
    } else {
      RestNamed(al, OWNED_MUTABLE, false, ts);
    }
  }

  lemma {:induction false} RestNamed(al: Alphabet, b: Rights, haveBase: bool, ts: seq<Token>)
    requires WordsNamed(al, ts)
    ensures NamedPerm(al, ParseRest(b, haveBase, ts))
    decreases |ts|, 2, 1
  {
    hide WordsNamed, ParseStructure;
    StructureNamed(al, b, ts);
  }

  lemma {:induction false} StructureNamed(al: Alphabet, b: Rights, ts: seq<Token>)
    requires WordsNamed(al, ts)
    ensures ParseStructure(b, ts).Some? ==> NamedPerm(al, ParseStructure(b, ts).value)
    decreases |ts|, 2, 0
  {
    hide WordsNamed, ParseInner, ParseFunc, ParseInterface, ParseMap, ParseStruct, ParseSliceOrArray, NamedPerm, Prefixed;
    HeadNamed(al, ts);
    match Head(ts).typ
    case FuncKey => FuncNamed(al, b, ts);
    case ParenLeft => FuncNamed(al, b, ts);
    case InterfaceKey => FieldsNamed(al, b, ts);
    case StructKey => FieldsNamed(al, b, ts);
    case MapKey => MapNamed(al, b, ts);
    case ChanKey => ElementNamed(al, Chan, b, ts, Tail(ts));
    case Star => ElementNamed(al, Pointer, b, ts, Tail(ts));
    case BracketLeft => BracketNamed(al, b, ts);
    case _ => NoneNamed(al);
  }

  lemma NoneNamed(al: Alphabet)
    ensures NamedPerm(al, Fail)
  {
  }

  lemma {:induction false} ElementNamed(al: Alphabet, kind: Kind, b: Rights, ts: seq<Token>, inner: seq<Token>)
    requires WordsNamed(al, inner) && |inner| < |ts| && !kind.Func?
    ensures NamedPerm(al, Prefixed(kind, b, ParseInner(inner)))
    decreases |ts|, 0
  {
    hide WordsNamed, ParseInner;
    InnerNamed(al, inner);
  }

  lemma {:induction false} BracketNamed(al: Alphabet, b: Rights, ts: seq<Token>)
    requires WordsNamed(al, ts) && ts != []
    ensures NamedPerm(al, ParseSliceOrArray(b, ts))
    decreases |ts|, 1
  {
    hide WordsNamed, ParseInner, Prefixed;
    HeadNamed(al, ts);
    HeadNamed(al, Tail(ts));
    var isArray := Head(Tail(ts)).typ.Number? || Head(Tail(ts)).typ.Underscore?;
    var close := if isArray then Tail(Tail(ts)) else Tail(ts);
    HeadNamed(al, close);
    ElementNamed(al, if isArray then Array else Slice, b, ts, Tail(close));
  }

  lemma {:induction false} MapNamed(al: Alphabet, b: Rights, ts: seq<Token>)
    requires WordsNamed(al, ts) && ts != []
    ensures NamedPerm(al, ParseMap(b, ts))
    decreases |ts|, 1
  {
    hide WordsNamed, ParseInner;
    HeadNamed(al, ts);
    var key := ParseInner(Tail(Tail(ts)));
    InnerNamed(al, Tail(Tail(ts)));
    if key.Got? {
      HeadNamed(al, key.rest);
      InnerNamed(al, Tail(key.rest));
    }
  }

  lemma {:induction false} FieldsNamed(al: Alphabet, b: Rights, ts: seq<Token>)
    requires WordsNamed(al, ts) && ts != []
    ensures NamedPerm(al, ParseStruct(b, ts)) && NamedPerm(al, ParseInterface(b, ts))
    decreases |ts|, 1
  {
    hide WordsNamed, ParseList, ParseListUntil;
    HeadNamed(al, ts);
    var fields := ParseList(Semicolon, Tail(Tail(ts)));
    ListNamed(al, Semicolon, Tail(Tail(ts)));
    UntilNamed(al, Semicolon, BraceRight, Tail(Tail(ts)));
    if fields.Got? {
      HeadNamed(al, fields.rest);
    }
  }

  lemma {:induction false} ListNamed(al: Alphabet, sep: TokenType, ts: seq<Token>)
    requires WordsNamed(al, ts) && (sep.Comma? || sep.Semicolon?)
    ensures NamedList(al, ParseList(sep, ts))
    decreases |ts|, 4
  {
    hide WordsNamed, ParseInner;
    var first := ParseInner(ts);
    InnerNamed(al, ts);
    if first.Got? {
      HeadNamed(al, first.rest);
      if Head(first.rest).typ == sep {
        ListNamed(al, sep, Tail(first.rest));
      }
    }
  }

  lemma {:induction false} UntilNamed(al: Alphabet, sep: TokenType, close: TokenType, ts: seq<Token>)
    requires WordsNamed(al, ts) && (sep.Comma? || sep.Semicolon?)
    ensures NamedList(al, ParseListUntil(sep, close, ts))
    decreases |ts|, 5
  {
    hide WordsNamed, ParseList;
    HeadNamed(al, ts);
    ListNamed(al, sep, ts);
    var list := ParseList(sep, ts);
    if list.Got? {
      HeadNamed(al, list.rest);
    }
  }

  lemma {:induction false} FuncNamed(al: Alphabet, b: Rights, ts: seq<Token>)
    requires WordsNamed(al, ts) && ts != [] && (ts[0].typ.FuncKey? || ts[0].typ.ParenLeft?)
    ensures NamedPerm(al, ParseFunc(b, ts))
    decreases |ts|, 1
  {
    hide WordsNamed, ParseList, ParseSignature, NamedPerm;
    HeadNamed(al, ts);
    NoneNamed(al);
    if Head(ts).typ.ParenLeft? {
      var receivers := ParseList(Comma, Tail(ts));
      ListNamed(al, Comma, Tail(ts));
      if receivers.Got? {
        HeadNamed(al, receivers.rest);
        SignatureNamed(al, b, receivers.value, Tail(Tail(receivers.rest)));
      }
    } else {
      SignatureNamed(al, b, [], Tail(ts));
    }
  }

  lemma {:induction false} SignatureNamed(al: Alphabet, b: Rights, receivers: seq<Perm>, ts: seq<Token>)
    requires WordsNamed(al, ts) && AllWellNamed(al, receivers)
    ensures NamedPerm(al, ParseSignature(b, receivers, ts))
    decreases |ts|, 6
  {
    hide WordsNamed, IsRun, ParseListUntil, ParseResults;
    HeadNamed(al, ts);
    var open := if Head(ts).typ.Word? then Tail(ts) else ts;
    HeadNamed(al, open);
    var params := ParseListUntil(Comma, ParenRight, Tail(open));
    UntilNamed(al, Comma, ParenRight, Tail(open));
    if params.Got? {
      ResultsNamed(al, params.rest);
    }
  }

  lemma {:induction false} ResultsNamed(al: Alphabet, ts: seq<Token>)
    requires WordsNamed(al, ts)
    ensures NamedList(al, ParseResults(ts))
    decreases |ts|, 5
  {
    hide WordsNamed, ParseList, ParseInner;
    HeadNamed(al, ts);
    if Head(ts).typ.ParenLeft? {
      var list := ParseList(Comma, Tail(ts));
      ListNamed(al, Comma, Tail(ts));
      if list.Got? {
        HeadNamed(al, list.rest);
      }
    } else if Head(ts).typ.Word? {
      InnerNamed(al, ts);
    }
  }

  // ----- the permissions that texts denote

  /** The permissions that some text denotes are exactly the writable ones whose functions have no names but those
      that scanning takes for words. */
  lemma DenotedIffNamed(al: Alphabet, p: Perm)
    requires Usual(al)
    ensures (exists input: string :: Parse(Tokens(al, input, 0)) == Some(p)) <==> Writable(p) && WellNamed(al, p)
  {
    if Writable(p) && WellNamed(al, p) {
      ReadInvertsWrite(al, p);
    }
    if input: string :| Parse(Tokens(al, input, 0)) == Some(p) {
      ParseableIffWritable(p);
      TokensAreNamed(al, input, 0);
      InnerNamed(al, Tokens(al, input, 0));
    }
  }
}
