/** The annotation language on token streams: parsing, a canonical rendering, and the round trip. */
module Grammar {
  import opened Wrappers
  import opened BasePermission
  import opened Permission
  import opened Scanning

  datatype Parsed<+T> = Fail | Got(value: T, rest: seq<Token>)

  // ----- base permissions

  /** The rights a letter stands for. */
  function LetterRights(c: char): Option<Rights> {
    match c
    case 'o' => Some(OWNED)
    case 'r' => Some(READ)
    case 'w' => Some(Rights(false, false, true, false, false))
    case 'R' => Some(Rights(false, false, false, true, false))
    case 'W' => Some(Rights(false, false, false, false, true))
    case 'm' => Some(MUTABLE)
    case 'l' => Some(Rights(false, true, false, true, true))
    case 'v' => Some(Rights(false, true, false, false, true))
    case 'a' => Some(Rights(true, true, true, false, false))
    case 'n' => Some(NO_RIGHTS)
    case _ => None
  }

  /** The union of the rights of all letters of a word. */
  function WordRights(word: string): Option<Rights> {
    if word == "" then Some(NO_RIGHTS)
    else
      var before, last := WordRights(word[..|word| - 1]), LetterRights(word[|word| - 1]);
      if before.Some? && last.Some? then Some(Or(before.value, last.value)) else None
  }

  // ----- parsing

  function ParseBase(ts: seq<Token>): (p: Parsed<Rights>)
    ensures p.Got? ==> |p.rest| < |ts|
  {
    if !Head(ts).typ.Word? then Fail
    else
      var b := WordRights(Head(ts).value);
      if b.Some? then Got(b.value, Tail(ts)) else Fail
  }

  /** `inner`: a wildcard, or a base permission, a structure, or both. */
  function ParseInner(ts: seq<Token>): (p: Parsed<Perm>)
    ensures p.Got? ==> |p.rest| < |ts|
    ensures p.Got? ==> Writable(p.value)
    decreases |ts|, 3
  {
    if Head(ts).typ.Underscore? then Got(Wildcard, Tail(ts))
    else if Head(ts).typ.Word? then
      var b := ParseBase(ts);
      if b.Fail? then Fail else ParseRest(b.value, true, b.rest)
    else ParseRest(OWNED_MUTABLE, false, ts)
  }

  /** What follows a base permission, or starts without one: a structure, or nothing. */
  function ParseRest(b: Rights, haveBase: bool, ts: seq<Token>): (p: Parsed<Perm>)
    ensures p.Got? ==> |p.rest| <= |ts| && (!haveBase ==> |p.rest| < |ts|)
    ensures p.Got? ==> Writable(p.value)
    decreases |ts|, 2, 1
  {
    var s := ParseStructure(b, ts);
    if s.Some? then s.value else if haveBase then Got(Base(b), ts) else Fail
  }

  /** The structure that starts here, if one does. */
  function ParseStructure(b: Rights, ts: seq<Token>): (p: Option<Parsed<Perm>>)
    ensures p.Some? && p.value.Got? ==> |p.value.rest| < |ts|
    ensures p.Some? && p.value.Got? ==> Writable(p.value.value)
    decreases |ts|, 2, 0
  {
    match Head(ts).typ
    case FuncKey => Some(ParseFunc(b, ts))
    case ParenLeft => Some(ParseFunc(b, ts))
    case InterfaceKey => Some(ParseInterface(b, ts))
    case MapKey => Some(ParseMap(b, ts))
    case ChanKey => Some(Prefixed(Chan, b, ParseInner(Tail(ts))))
    case StructKey => Some(ParseStruct(b, ts))
    case Star => Some(Prefixed(Pointer, b, ParseInner(Tail(ts))))
    case BracketLeft => Some(ParseSliceOrArray(b, ts))
    case Illegal => Some(Fail)
    case _ => None
  }

  function Prefixed(kind: Kind, b: Rights, inner: Parsed<Perm>): Parsed<Perm> {
    if inner.Got? then Got(Node(kind, b, [inner.value]), inner.rest) else Fail
  }

  /** One or more permissions, separated. */
  function ParseList(sep: TokenType, ts: seq<Token>): (p: Parsed<seq<Perm>>)
    requires sep.Comma? || sep.Semicolon?
    ensures p.Got? ==> |p.rest| < |ts| && p.value != []
    ensures p.Got? ==> AllWritable(p.value)
    decreases |ts|, 4
  {
    var first := ParseInner(ts);
    if first.Fail? then Fail else Prepend([first.value], ParseMore(sep, first.rest))
  }

  /** The rest of a list. */
  function ParseMore(sep: TokenType, ts: seq<Token>): (p: Parsed<seq<Perm>>)
    requires sep.Comma? || sep.Semicolon?
    ensures p.Got? ==> |p.rest| <= |ts|
    ensures p.Got? ==> AllWritable(p.value)
    decreases |ts|, 0
  {
    if Head(ts).typ.Illegal? then Fail
    else if Head(ts).typ == sep then ParseList(sep, Tail(ts))
    else Got([], ts)
  }

  function Prepend(ps: seq<Perm>, more: Parsed<seq<Perm>>): Parsed<seq<Perm>> {
    if more.Got? then Got(ps + more.value, more.rest) else Fail
  }

  /** A list up to a closing token, possibly empty. */
  function ParseListUntil(sep: TokenType, close: TokenType, ts: seq<Token>): (p: Parsed<seq<Perm>>)
    requires sep.Comma? || sep.Semicolon?
    ensures p.Got? ==> |p.rest| <= |ts|
    ensures p.Got? ==> AllWritable(p.value)
    decreases |ts|, 5
  {
    if Head(ts).typ == close then Got([], Tail(ts))
    else
      var list := ParseList(sep, ts);
      if list.Got? && Head(list.rest).typ == close then Got(list.value, Tail(list.rest)) else Fail
  }

  function ParseMap(b: Rights, ts: seq<Token>): (p: Parsed<Perm>)
    requires ts != []
    ensures p.Got? ==> |p.rest| < |ts|
    ensures p.Got? ==> Writable(p.value)
    decreases |ts|, 1
  {
    if !Head(Tail(ts)).typ.BracketLeft? then Fail
    else
      var key := ParseInner(Tail(Tail(ts)));
      if key.Fail? || !Head(key.rest).typ.BracketRight? then Fail
      else
        var val := ParseInner(Tail(key.rest));
        if val.Got? then Got(Node(Map, b, [key.value, val.value]), val.rest) else Fail
  }

  function ParseSliceOrArray(b: Rights, ts: seq<Token>): (p: Parsed<Perm>)
    requires ts != []
    ensures p.Got? ==> |p.rest| < |ts|
    ensures p.Got? ==> Writable(p.value)
    decreases |ts|, 1
  {
    var isArray := Head(Tail(ts)).typ.Number? || Head(Tail(ts)).typ.Underscore?;
    var close := if isArray then Tail(Tail(ts)) else Tail(ts);
    if !Head(close).typ.BracketRight? then Fail
    else Prefixed(if isArray then Array else Slice, b, ParseInner(Tail(close)))
  }

  function ParseStruct(b: Rights, ts: seq<Token>): (p: Parsed<Perm>)
    requires ts != []
    ensures p.Got? ==> |p.rest| < |ts|
    ensures p.Got? ==> Writable(p.value)
    decreases |ts|, 1
  {
    if !Head(Tail(ts)).typ.BraceLeft? then Fail
    else
      var fields := ParseList(Semicolon, Tail(Tail(ts)));
      if fields.Got? && Head(fields.rest).typ.BraceRight? then Got(Node(Struct, b, fields.value), Tail(fields.rest)) else Fail
  }

  predicate IsMethod(p: Perm) {
    p.Node? && p.kind.Func?
  }

  predicate AllMethods(ps: seq<Perm>) {
    forall i :: 0 <= i < |ps| ==> IsMethod(ps[i])
  }

  function ParseInterface(b: Rights, ts: seq<Token>): (p: Parsed<Perm>)
    requires ts != []
    ensures p.Got? ==> |p.rest| < |ts|
    ensures p.Got? ==> Writable(p.value)
    decreases |ts|, 1
  {
    if !Head(Tail(ts)).typ.BraceLeft? then Fail
    else
      var methods := ParseListUntil(Semicolon, BraceRight, Tail(Tail(ts)));
      if methods.Got? && AllMethods(methods.value) then
        Got(Node(Interface, b, methods.value), methods.rest)
      else Fail
  }

  /** Receivers in parentheses before the keyword, if any; a name; parameters; results, either in parentheses
      or a single one that starts with a word. */
  function ParseFunc(b: Rights, ts: seq<Token>): (p: Parsed<Perm>)
    requires ts != [] && (ts[0].typ.FuncKey? || ts[0].typ.ParenLeft?)
    ensures p.Got? ==> |p.rest| < |ts|
    ensures p.Got? ==> Writable(p.value)
    decreases |ts|, 1
  {
    if Head(ts).typ.ParenLeft? then
      var receivers := ParseList(Comma, Tail(ts));
      if receivers.Got? && Head(receivers.rest).typ.ParenRight? && Head(Tail(receivers.rest)).typ.FuncKey? then
        ParseSignature(b, receivers.value, Tail(Tail(receivers.rest)))
      else Fail
    else ParseSignature(b, [], Tail(ts))
  }

  function ParseSignature(b: Rights, receivers: seq<Perm>, ts: seq<Token>): (p: Parsed<Perm>)
    ensures p.Got? ==> |p.rest| <= |ts|
    ensures p.Got? && AllWritable(receivers) ==> Writable(p.value)
    decreases |ts|, 6
  {
    var name := if Head(ts).typ.Word? then Head(ts).value else "";
    var open := if Head(ts).typ.Word? then Tail(ts) else ts;
    if !Head(open).typ.ParenLeft? then Fail
    else
      var params := ParseListUntil(Comma, ParenRight, Tail(open));
      if params.Fail? then Fail
      else
        var results := ParseResults(params.rest);
        if results.Fail? then Fail
        else Got(Node(Func(name, |receivers|, |params.value|), b, receivers + params.value + results.value), results.rest)
  }

  function ParseResults(ts: seq<Token>): (p: Parsed<seq<Perm>>)
    ensures p.Got? ==> |p.rest| <= |ts|
    ensures p.Got? ==> AllWritable(p.value)
    decreases |ts|, 5
  {
    if Head(ts).typ.ParenLeft? then
      var list := ParseList(Comma, Tail(ts));
      if list.Got? && Head(list.rest).typ.ParenRight? then Got(list.value, Tail(list.rest)) else Fail
    else if Head(ts).typ.Word? then
      var one := ParseInner(ts);
      if one.Got? then Got([one.value], one.rest) else Fail
    else if Head(ts).typ.Illegal? then Fail
    else Got([], ts)
  }

  /** A whole annotation. */
  function Parse(ts: seq<Token>): Option<Perm> {
    var p := ParseInner(ts);
    if p.Got? && Head(p.rest).typ.EndOfFile? then Some(p.value) else None
  }

  // ----- rendering

  function Letter(present: bool, c: char): string {
    if present then [c] else ""
  }

  /** A base permission spelled letter by letter. */
  function Spelling(b: Rights): string {
    if b == NO_RIGHTS then "n"
    else Letter(b.o, 'o') + Letter(b.r, 'r') + Letter(b.w, 'w') + Letter(b.xr, 'R') + Letter(b.xw, 'W')
  }

  function T(typ: TokenType, value: string): seq<Token> {
    [Token(typ, value)]
  }

  /** A permission that can be written: no nil, no tuple, the parts its shape has, no empty struct. */
  predicate Writable(p: Perm) {
    match p
    case Base(_) | Wildcard => true
    case Nil => false
    case Node(kind, _, parts) =>
      && (match kind
          case Pointer | Chan | Array | Slice => |parts| == 1
          case Map => |parts| == 2
          case Struct => parts != []
          case Tuple => false
          case Interface => forall i :: 0 <= i < |parts| ==> IsMethod(parts[i])
          case Func(_, rs, ps) => rs + ps <= |parts|)
      && forall i :: 0 <= i < |parts| ==> Writable(parts[i])
  }

  predicate AllWritable(ps: seq<Perm>) {
    forall i :: 0 <= i < |ps| ==> Writable(ps[i])
  }

  /** The tokens of the parts from `lo` to `hi`, with separators between them. */
  function RenderParts(sep: Token, ps: seq<Perm>, lo: nat, hi: nat): seq<Token>
    requires lo <= hi <= |ps| && AllWritable(ps)
    decreases ps, 0, hi - lo
  {
    if lo == hi then [] else if lo + 1 == hi then Render(ps[lo]) else Render(ps[lo]) + [sep] + RenderParts(sep, ps, lo + 1, hi)
  }

  const COMMA := Token(Comma, ",")
  const SEMICOLON := Token(Semicolon, ";")

  /** The same in parentheses. */
  function RenderGroup(ps: seq<Perm>, lo: nat, hi: nat): seq<Token>
    requires lo <= hi <= |ps| && AllWritable(ps)
    decreases ps, 1, 0
  {
    T(ParenLeft, "(") + RenderParts(COMMA, ps, lo, hi) + T(ParenRight, ")")
  }

  /** The canonical rendering of a writable permission: every base permission spelled out, results in
      parentheses. */
  function Render(p: Perm): seq<Token>
    requires Writable(p)
    decreases p, 1
  {
    match p
    case Base(b) => T(Word, Spelling(b))
    case Wildcard => T(Underscore, "_")
    case Node(_, b, _) => T(Word, Spelling(b)) + RenderBody(p)
  }

  function RenderBody(p: Perm): seq<Token>
    requires Writable(p) && p.Node?
    decreases p, 0
  {
    var parts, n := p.parts, |p.parts|;
    match p.kind
    case Pointer => T(Star, "*") + Render(parts[0])
    case Chan => T(ChanKey, "chan") + Render(parts[0])
    case Array => T(BracketLeft, "[") + T(Underscore, "_") + T(BracketRight, "]") + Render(parts[0])
    case Slice => T(BracketLeft, "[") + T(BracketRight, "]") + Render(parts[0])
    case Map => T(MapKey, "map") + T(BracketLeft, "[") + Render(parts[0]) + T(BracketRight, "]") + Render(parts[1])
    case Struct => T(StructKey, "struct") + T(BraceLeft, "{") + RenderParts(SEMICOLON, parts, 0, n) + T(BraceRight, "}")
    case Interface => T(InterfaceKey, "interface") + T(BraceLeft, "{") + RenderParts(SEMICOLON, parts, 0, n) + T(BraceRight, "}")
    case Func(name, rs, ps) =>
      (if rs == 0 then [] else RenderGroup(parts, 0, rs)) + T(FuncKey, "func") + RenderSignature(name, parts, rs, rs + ps)
  }

  /** A function after its keyword: the name, the parameters from `lo` to `hi`, the results after them. */
  function RenderSignature(name: string, ps: seq<Perm>, lo: nat, hi: nat): seq<Token>
    requires lo <= hi <= |ps| && AllWritable(ps)
    decreases ps, 3, 0
  {
    (if name == "" then [] else T(Word, name)) + RenderGroup(ps, lo, hi) + RenderResults(ps, hi)
  }

  function RenderResults(ps: seq<Perm>, lo: nat): seq<Token>
    requires lo <= |ps| && AllWritable(ps)
    decreases ps, 2, 0
  {
    if lo == |ps| then [] else RenderGroup(ps, lo, |ps|)
  }

  // ----- the round trip

  lemma {:induction false} WordRightsConcat(a: string, b: string)
    requires WordRights(a).Some? && WordRights(b).Some?
    ensures WordRights(a + b) == Some(Or(WordRights(a).value, WordRights(b).value))
    decreases |b|
  {
    if b == "" {
      assert a + b == a;
    } else {
      assert (a + b)[..|a + b| - 1] == a + b[..|b| - 1];
      WordRightsConcat(a, b[..|b| - 1]);
    }
  }

  lemma LetterWord(present: bool, c: char)
    requires LetterRights(c).Some?
    ensures WordRights(Letter(present, c)) == Some(if present then LetterRights(c).value else NO_RIGHTS)
  {
    assert [c][..0] == "";
  }

  /** The spelling of a base permission is read back as that base permission. */
  lemma SpellingRights(b: Rights)
    ensures Spelling(b) != "" && WordRights(Spelling(b)) == Some(b)
  {
    if b == NO_RIGHTS {
      LetterWord(true, 'n');
    } else {
      var o, r, w, xr, xw := Letter(b.o, 'o'), Letter(b.r, 'r'), Letter(b.w, 'w'), Letter(b.xr, 'R'), Letter(b.xw, 'W');
      LetterWord(b.o, 'o');
      LetterWord(b.r, 'r');
      LetterWord(b.w, 'w');
      LetterWord(b.xr, 'R');
      LetterWord(b.xw, 'W');
      WordRightsConcat(o, r);
      WordRightsConcat(o + r, w);
      WordRightsConcat(o + r + w, xr);
      WordRightsConcat(o + r + w + xr, xw);
    }
  }

  /** What may come after a permission: nothing that could continue it. */
  predicate Follows(rest: seq<Token>) {
    var typ := Head(rest).typ;
    typ.EndOfFile? || typ.ParenRight? || typ.Comma? || typ.Semicolon? || typ.BraceRight? || typ.BracketRight?
  }

  /** Reading one token off a stream written as a concatenation. */
  lemma First(t: Token, ts: seq<Token>, rest: seq<Token>)
    ensures Head([t] + ts + rest) == t && Tail([t] + ts + rest) == ts + rest
  {
    assert [t] + ts + rest == [t] + (ts + rest);
  }

  lemma One(t: Token, rest: seq<Token>)
    ensures Head([t] + rest) == t && Tail([t] + rest) == rest
  {
  }

  /** A rendering starts with a word or an underscore. */
  lemma Starts(p: Perm, rest: seq<Token>)
    requires Writable(p)
    ensures Head(Render(p) + rest).typ.Word? || Head(Render(p) + rest).typ.Underscore?
  {
  }

  lemma NothingFollows(b: Rights, rest: seq<Token>)
    requires Follows(rest)
    ensures ParseStructure(b, rest) == None
  {
  }

  /** Parsing reads a rendering back, whatever follows it. */
  lemma {:induction false} RenderedIsParsed(p: Perm, rest: seq<Token>)
    requires Writable(p) && Follows(rest)
    ensures ParseInner(Render(p) + rest) == Got(p, rest)
    decreases p, 3
  {
    hide ParseStructure, ParseList, ParseMore, ParseListUntil, ParseMap, ParseSliceOrArray, ParseStruct, ParseInterface, ParseFunc, ParseSignature, ParseResults, WordRights, Spelling, RenderBody, RenderParts, RenderGroup, RenderSignature, RenderResults, Tail;
    match p
    case Wildcard => One(Token(Underscore, "_"), rest);
    case Base(b) =>
      One(Token(Word, Spelling(b)), rest);
      SpellingRights(b);
      NothingFollows(b, rest);
    case Node(_, b, _) =>
      First(Token(Word, Spelling(b)), RenderBody(p), rest);
      SpellingRights(b);
      BodyIsParsed(p, rest);
  }

  lemma {:induction false} BodyIsParsed(p: Perm, rest: seq<Token>)
    requires Writable(p) && p.Node? && Follows(rest)
    ensures ParseStructure(p.base, RenderBody(p) + rest) == Some(Got(p, rest))
    decreases p, 2
  {
    hide ParseInner, ParseList, ParseMore, ParseListUntil, ParseMap, ParseStruct, ParseInterface, ParseFunc, ParseSignature, ParseResults, ParseBase, WordRights, Spelling, Render, RenderParts, RenderGroup, RenderSignature, RenderResults, Head, Tail;
    var parts, n := p.parts, |p.parts|;
    match p.kind
    case Pointer =>
      First(Token(Star, "*"), Render(parts[0]), rest);
      RenderedIsParsed(parts[0], rest);
      assert parts == [parts[0]];
    case Chan =>
      First(Token(ChanKey, "chan"), Render(parts[0]), rest);
      RenderedIsParsed(parts[0], rest);
      assert parts == [parts[0]];
    case Array =>
      var inner := T(BracketRight, "]") + Render(parts[0]);
      First(Token(BracketLeft, "["), T(Underscore, "_") + inner, rest);
      First(Token(Underscore, "_"), inner, rest);
      First(Token(BracketRight, "]"), Render(parts[0]), rest);
      assert RenderBody(p) == T(BracketLeft, "[") + (T(Underscore, "_") + inner);
      RenderedIsParsed(parts[0], rest);
      assert parts == [parts[0]];
    case Slice =>
      var inner := T(BracketRight, "]") + Render(parts[0]);
      First(Token(BracketLeft, "["), inner, rest);
      First(Token(BracketRight, "]"), Render(parts[0]), rest);
      assert RenderBody(p) == T(BracketLeft, "[") + inner;
      RenderedIsParsed(parts[0], rest);
      assert parts == [parts[0]];
    case Map => MapIsParsed(p, rest);
    case Struct => FieldsAreParsed(p, rest);
    case Interface => FieldsAreParsed(p, rest);
    case Func(_, _, _) => FuncIsParsed(p, rest);
  }

  lemma {:induction false} MapIsParsed(p: Perm, rest: seq<Token>)
    requires Writable(p) && p.Node? && p.kind.Map? && Follows(rest)
    ensures ParseStructure(p.base, RenderBody(p) + rest) == Some(Got(p, rest))
    decreases p, 1
  {
    hide ParseInner, ParseList, ParseMore, ParseListUntil, ParseSliceOrArray, ParseStruct, ParseInterface, ParseFunc, ParseSignature, ParseResults, ParseBase, WordRights, Spelling, Render, RenderParts, RenderGroup, RenderSignature, RenderResults, Head, Tail;
    var key, val := p.parts[0], p.parts[1];
    var afterKey := T(BracketRight, "]") + Render(val) + rest;
    First(Token(MapKey, "map"), T(BracketLeft, "["), Render(key) + afterKey);
    One(Token(BracketLeft, "["), Render(key) + afterKey);
    assert RenderBody(p) + rest == T(MapKey, "map") + T(BracketLeft, "[") + (Render(key) + afterKey);
    First(Token(BracketRight, "]"), Render(val), rest);
    RenderedIsParsed(key, afterKey);
    RenderedIsParsed(val, rest);
    assert p.parts == [key, val];
  }

  /** A non-empty separated list is read back when no separator follows it. */
  lemma {:induction false} PartsAreParsed(sep: Token, ps: seq<Perm>, lo: nat, hi: nat, rest: seq<Token>)
    requires sep == COMMA || sep == SEMICOLON
    requires lo < hi <= |ps| && AllWritable(ps)
    requires Follows(rest) && Head(rest).typ != sep.typ
    ensures ParseList(sep.typ, RenderParts(sep, ps, lo, hi) + rest) == Got(ps[lo..hi], rest)
    decreases ps, 0, hi - lo
  {
    hide ParseInner, ParseStructure, ParseListUntil, ParseMap, ParseSliceOrArray, ParseStruct, ParseInterface, ParseFunc, ParseSignature, ParseResults, ParseBase, WordRights, Spelling, Render, RenderBody, RenderGroup, RenderSignature, RenderResults, Head, Tail;
    if lo + 1 == hi {
      RenderedIsParsed(ps[lo], rest);
      assert ps[lo..hi] == [ps[lo]] + [];
    } else {
      var more := RenderParts(sep, ps, lo + 1, hi);
      First(sep, more, rest);
      assert RenderParts(sep, ps, lo, hi) + rest == Render(ps[lo]) + ([sep] + more + rest);
      RenderedIsParsed(ps[lo], [sep] + more + rest);
      PartsAreParsed(sep, ps, lo + 1, hi, rest);
      assert ps[lo..hi] == [ps[lo]] + ps[lo + 1..hi];
    }
  }

  /** A possibly empty list is read back up to its closing token. */
  lemma {:induction false} ClosedIsParsed(sep: Token, close: Token, ps: seq<Perm>, lo: nat, hi: nat, rest: seq<Token>)
    requires (sep == COMMA && close.typ == ParenRight) || (sep == SEMICOLON && close.typ == BraceRight)
    requires lo <= hi <= |ps| && AllWritable(ps)
    ensures ParseListUntil(sep.typ, close.typ, RenderParts(sep, ps, lo, hi) + [close] + rest) == Got(ps[lo..hi], rest)
    ensures lo < hi ==> ParseList(sep.typ, RenderParts(sep, ps, lo, hi) + [close] + rest) == Got(ps[lo..hi], [close] + rest)
    decreases ps, 1, 0
  {
    hide ParseInner, ParseStructure, ParseList, ParseMore, ParseMap, ParseSliceOrArray, ParseStruct, ParseInterface, ParseFunc, ParseSignature, ParseResults, ParseBase, WordRights, Spelling, Render, RenderBody, RenderGroup, RenderSignature, RenderResults, Head, Tail;
    var end, parts := [close] + rest, RenderParts(sep, ps, lo, hi);
    assert parts + [close] + rest == parts + end;
    One(close, rest);
    if lo == hi {
      assert parts + end == end;
      assert ps[lo..hi] == [];
    } else {
      PartsAreParsed(sep, ps, lo, hi, end);
      PartsStart(sep, ps, lo, hi, end);
    }
  }

  /** A non-empty list starts with a word or an underscore. */
  lemma PartsStart(sep: Token, ps: seq<Perm>, lo: nat, hi: nat, end: seq<Token>)
    requires lo < hi <= |ps| && AllWritable(ps)
    ensures var typ := Head(RenderParts(sep, ps, lo, hi) + end).typ; typ.Word? || typ.Underscore?
  {
    hide Render;
    if lo + 1 == hi {
      Starts(ps[lo], end);
    } else {
      var more := [sep] + RenderParts(sep, ps, lo + 1, hi) + end;
      Starts(ps[lo], more);
      assert RenderParts(sep, ps, lo, hi) + end == Render(ps[lo]) + more;
    }
  }

  lemma {:induction false} FieldsAreParsed(p: Perm, rest: seq<Token>)
    requires Writable(p) && p.Node? && (p.kind.Struct? || p.kind.Interface?) && Follows(rest)
    ensures ParseStructure(p.base, RenderBody(p) + rest) == Some(Got(p, rest))
    decreases p, 1
  {
    hide ParseInner, ParseList, ParseMore, ParseMap, ParseSliceOrArray, ParseFunc, ParseSignature, ParseResults, ParseBase, WordRights, Spelling, Render, RenderParts, RenderGroup, RenderSignature, RenderResults, Head, Tail;
    var parts, n := p.parts, |p.parts|;
    var key := if p.kind.Struct? then Token(StructKey, "struct") else Token(InterfaceKey, "interface");
    var open, close := Token(BraceLeft, "{"), Token(BraceRight, "}");
    var inner := RenderParts(SEMICOLON, parts, 0, n) + [close] + rest;
    First(key, [open], inner);
    One(open, inner);
    One(close, rest);
    assert RenderBody(p) + rest == [key] + [open] + inner;
    ClosedIsParsed(SEMICOLON, close, parts, 0, n, rest);
    assert parts[0..n] == parts;
  }

  lemma {:induction false} ResultsAreParsed(ps: seq<Perm>, lo: nat, rest: seq<Token>)
    requires lo <= |ps| && AllWritable(ps) && Follows(rest)
    ensures ParseResults(RenderResults(ps, lo) + rest) == Got(ps[lo..], rest)
    decreases ps, 2, 0
  {
    hide ParseInner, ParseStructure, ParseList, ParseMore, ParseListUntil, ParseMap, ParseSliceOrArray, ParseStruct, ParseInterface, ParseFunc, ParseSignature, ParseBase, WordRights, Spelling, Render, RenderBody, RenderParts, RenderSignature, Head, Tail;
    if lo == |ps| {
      assert RenderResults(ps, lo) + rest == rest;
    } else {
      var open, close := Token(ParenLeft, "("), Token(ParenRight, ")");
      var listed := RenderParts(COMMA, ps, lo, |ps|) + [close] + rest;
      assert RenderResults(ps, lo) + rest == [open] + listed;
      One(open, listed);
      One(close, rest);
      ClosedIsParsed(COMMA, close, ps, lo, |ps|, rest);
      assert ps[lo..|ps|] == ps[lo..];
    }
  }

  lemma {:induction false} SignatureIsParsed(b: Rights, name: string, ps: seq<Perm>, lo: nat, hi: nat, rest: seq<Token>)
    requires lo <= hi <= |ps| && AllWritable(ps) && Follows(rest)
    ensures ParseSignature(b, ps[..lo], RenderSignature(name, ps, lo, hi) + rest) == Got(Node(Func(name, lo, hi - lo), b, ps), rest)
    decreases ps, 3, 0
  {
    hide ParseInner, ParseStructure, ParseList, ParseMore, ParseListUntil, ParseMap, ParseSliceOrArray, ParseStruct, ParseInterface, ParseFunc, ParseResults, ParseBase, WordRights, Spelling, Render, RenderBody, RenderParts, RenderResults, Head, Tail;
    var open, close := Token(ParenLeft, "("), Token(ParenRight, ")");
    var results := RenderResults(ps, hi) + rest;
    var listed := RenderParts(COMMA, ps, lo, hi) + [close] + results;
    One(open, listed);
    if name == "" {
      assert RenderSignature(name, ps, lo, hi) + rest == [open] + listed;
    } else {
      First(Token(Word, name), [open], listed);
      assert RenderSignature(name, ps, lo, hi) + rest == [Token(Word, name)] + [open] + listed;
    }
    ClosedIsParsed(COMMA, close, ps, lo, hi, results);
    ResultsAreParsed(ps, hi, rest);
    assert ps[..lo] + ps[lo..hi] + ps[hi..] == ps;
  }

  lemma FuncBody(p: Perm)
    requires Writable(p) && p.Node? && p.kind.Func?
    ensures RenderBody(p) == (if p.kind.receivers == 0 then [] else RenderGroup(p.parts, 0, p.kind.receivers)) + T(FuncKey, "func")
      + RenderSignature(p.kind.name, p.parts, p.kind.receivers, p.kind.receivers + p.kind.params)
  {
    hide RenderGroup, RenderSignature;
  }

  lemma KeywordStartsFunc(b: Rights, ts: seq<Token>)
    requires Head(ts).typ.FuncKey?
    ensures ParseStructure(b, ts) == Some(ParseSignature(b, [], Tail(ts)))
  {
    hide ParseSignature, ParseMap, ParseSliceOrArray, ParseStruct, ParseInterface, ParseInner, ParseList;
  }

  lemma {:induction false} FuncIsParsed(p: Perm, rest: seq<Token>)
    requires Writable(p) && p.Node? && p.kind.Func? && Follows(rest)
    ensures ParseStructure(p.base, RenderBody(p) + rest) == Some(Got(p, rest))
    decreases p, 1
  {
    hide ParseStructure, ParseFunc, RenderGroup, RenderBody, ParseInner, ParseList, ParseMore, ParseListUntil, ParseMap, ParseSliceOrArray, ParseStruct, ParseInterface, ParseSignature, ParseResults, ParseBase, WordRights, Spelling, Render, RenderParts, RenderSignature, RenderResults, Head, Tail;
    var parts, rs, hi := p.parts, p.kind.receivers, p.kind.receivers + p.kind.params;
    var key := Token(FuncKey, "func");
    var signature := RenderSignature(p.kind.name, parts, rs, hi) + rest;
    FuncBody(p);
    SignatureIsParsed(p.base, p.kind.name, parts, rs, hi, rest);
    if rs == 0 {
      One(key, signature);
      KeywordStartsFunc(p.base, [key] + signature);
      assert RenderBody(p) + rest == [key] + signature;
      assert parts[..rs] == [];
    } else {
      ReceiversAreParsed(p.base, parts, rs, signature);
      assert RenderBody(p) + rest == RenderGroup(parts, 0, rs) + ([key] + signature);
    }
  }

  lemma {:induction false} ReceiversAreParsed(b: Rights, ps: seq<Perm>, hi: nat, signature: seq<Token>)
    requires 0 < hi <= |ps| && AllWritable(ps)
    ensures ParseStructure(b, RenderGroup(ps, 0, hi) + ([Token(FuncKey, "func")] + signature))
         == Some(ParseSignature(b, ps[..hi], signature))
    decreases ps, 2, 0
  {
    hide ParseInner, ParseList, ParseMore, ParseListUntil, ParseMap, ParseSliceOrArray, ParseStruct, ParseInterface, ParseSignature, ParseResults, ParseBase, WordRights, Spelling, Render, RenderParts, RenderSignature, RenderBody, RenderResults, Head, Tail;
    var key, open, close := Token(FuncKey, "func"), Token(ParenLeft, "("), Token(ParenRight, ")");
    var listed := RenderParts(COMMA, ps, 0, hi) + [close] + ([key] + signature);
    assert RenderGroup(ps, 0, hi) + ([key] + signature) == [open] + listed;
    One(open, listed);
    One(close, [key] + signature);
    One(key, signature);
    ClosedIsParsed(COMMA, close, ps, 0, hi, [key] + signature);
    assert ps[0..hi] == ps[..hi];
  }

  /** Parsing inverts rendering. */
  lemma ParseInvertsRender(p: Perm)
    requires Writable(p)
    ensures Parse(Render(p)) == Some(p)
  {
    RenderedIsParsed(p, []);
    assert Render(p) + [] == Render(p);
  }

  /** The permissions that some annotation denotes are exactly the writable ones. */
  lemma ParseableIffWritable(p: Perm)
    ensures (exists ts: seq<Token> :: Parse(ts) == Some(p)) <==> Writable(p)
  {
    if Writable(p) {
      ParseInvertsRender(p);
    }
  }

  // ----- the short forms

  /** A single result may stand without parentheses if it does not start with an underscore or a structure. */
  lemma BareResult(p: Perm, rest: seq<Token>)
    requires Writable(p) && !p.Wildcard? && Follows(rest)
    ensures ParseResults(Render(p) + rest) == Got([p], rest)
  {
    hide ParseInner, ParseList, Spelling, RenderBody;
    RenderedIsParsed(p, rest);
    assert Head(Render(p) + rest).typ.Word?;
  }

  /** A structure without a base permission is owned and mutable. */
  lemma WithoutBase(p: Perm, rest: seq<Token>)
    requires Writable(p) && p.Node? && Follows(rest) && p.base == Rights(true, true, true, true, true)
    ensures ParseInner(RenderBody(p) + rest) == Got(p, rest)
  {
    BodyIsParsed(p, rest);
    hide ParseStructure, RenderBody;
    BodyStarts(p, rest);
  }

  lemma BodyStarts(p: Perm, rest: seq<Token>)
    requires Writable(p) && p.Node?
    ensures var typ := Head(RenderBody(p) + rest).typ; !typ.Word? && !typ.Underscore?
  {
    hide Render, RenderParts, RenderSignature;
  }

  /** An array may have a number for its length. */
  lemma NumberedArray(b: Rights, digits: string, element: Perm, rest: seq<Token>)
    requires Writable(element) && Follows(rest)
    ensures ParseSliceOrArray(b, T(BracketLeft, "[") + T(Number, digits) + T(BracketRight, "]") + (Render(element) + rest))
         == Got(Node(Array, b, [element]), rest)
  {
    hide ParseInner, Render;
    var inner := Render(element) + rest;
    First(Token(BracketLeft, "["), T(Number, digits) + T(BracketRight, "]"), inner);
    First(Token(Number, digits), T(BracketRight, "]"), inner);
    One(Token(BracketRight, "]"), inner);
    assert T(BracketLeft, "[") + T(Number, digits) + T(BracketRight, "]") + inner
        == T(BracketLeft, "[") + (T(Number, digits) + T(BracketRight, "]")) + inner;
    RenderedIsParsed(element, rest);
  }
}
