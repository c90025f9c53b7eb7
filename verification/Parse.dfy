/** api/router/util/parse.go: the tokeniser and the recursive-descent parser. */
module Parse {
  import opened Text
  import opened Types
  import opened Wrappers

  const EOF := "\0"

  // ----- Terminals -----

  predicate IsHexDigit(r: char)
  {
    '0' <= r <= '9' || 'A' <= r <= 'F' || 'a' <= r <= 'f'
  }

  /** unreserved, sub-delims, `:` and `@` of RFC 3986, section 3.3 */
  predicate IsPlain(r: char)
  {
    'A' <= r <= 'Z' || 'a' <= r <= 'z' || '0' <= r <= '9' || r in "-._~!$&'()*+,;=:@"
  }

  // Which characters these are, one by one.

  lemma UpperLetters(r: char)
    ensures r in "ABCDEFGHIJKLMNOPQRSTUVWXYZ" <==> 'A' <= r <= 'Z'
  {
  }

  lemma LowerLetters(r: char)
    ensures r in "abcdefghijklmnopqrstuvwxyz" <==> 'a' <= r <= 'z'
  {
  }

  lemma Digits(r: char)
    ensures r in "0123456789" <==> '0' <= r <= '9'
  {
  }

  lemma HexDigits(r: char)
    ensures IsHexDigit(r) <==> r in "0123456789" || r in "ABCDEF" || r in "abcdef"
  {
    Digits(r);
  }

  lemma PlainCharacters(r: char)
    ensures IsPlain(r) <==>
      || r in "ABCDEFGHIJKLMNOPQRSTUVWXYZ" || r in "abcdefghijklmnopqrstuvwxyz" || r in "0123456789"
      || r in "-._~" || r in "!$&'()*+,;=" || r in ":@"
  {
    UpperLetters(r);
    LowerLetters(r);
    Digits(r);
  }

  /** `t` consists of pchars: plain characters and percent-encoded bytes. */
  predicate PChars(t: string)
  {
    if t == "" then true else
    if IsPlain(t[0]) then PChars(t[1..]) else
    t[0] == '%' && |t| >= 3 && IsHexDigit(t[1]) && IsHexDigit(t[2]) && PChars(t[3..])
  }

  method ExpectPChars(t: string) returns (ok: bool)
    ensures ok == PChars(t)
  {
    var st := 0;  // init, pct1, pct2
    for i := 0 to |t|
      invariant 0 <= st <= 2
      invariant st == 0 ==> PChars(t) == PChars(t[i..])
      invariant st == 1 ==>
        (PChars(t) <==> |t| - i >= 2 && IsHexDigit(t[i]) && IsHexDigit(t[i + 1]) && PChars(t[i + 2..]))
      invariant st == 2 ==> (PChars(t) <==> |t| - i >= 1 && IsHexDigit(t[i]) && PChars(t[i + 1..]))
    {
      var r := t[i];
      assert t[i..][1..] == t[i + 1..];
      if st != 0 {
        if !IsHexDigit(r) {
          return false;
        }
        st := if st == 1 then 2 else 0;
      } else if IsPlain(r) {
      } else if r == '%' {
        assert |t| - i >= 3 ==> t[i..][3..] == t[i + 3..];
        st := 1;
      } else {
        return false;
      }
    }
    assert t[|t|..] == "";
    return st == 0;
  }

  predicate IsIdentChar(r: char)
  {
    '0' <= r <= '9' || 'A' <= r <= 'Z' || 'a' <= r <= 'z' || r == '_'
  }

  lemma IdentCharacters(r: char)
    ensures IsIdentChar(r) <==>
      || r in "ABCDEFGHIJKLMNOPQRSTUVWXYZ" || r in "abcdefghijklmnopqrstuvwxyz" || r in "0123456789" || r == '_'
  {
    UpperLetters(r);
    LowerLetters(r);
    Digits(r);
  }

  predicate Ident(t: string)
  {
    t != "" && !('0' <= t[0] <= '9') && forall r <- t :: IsIdentChar(r)
  }

  method ExpectIdent(ident: string) returns (ok: bool)
    ensures ok == Ident(ident)
  {
    if ident == "" {
      return false;
    }
    for pos := 0 to |ident|
      invariant pos > 0 ==> !('0' <= ident[0] <= '9')
      invariant forall k :: 0 <= k < pos ==> IsIdentChar(ident[k])
    {
      var r := ident[pos];
      if '0' <= r <= '9' {
        if pos == 0 {
          return false;
        }
      } else if !IsIdentChar(r) {
        return false;
      }
    }
    return true;
  }

  /** `termType`: a punctuation token or one of the named terminals. */
  datatype Term = Punct(token: string) | IdentTerm | LiteralTerm | EofTerm

  /** Whether `accept(term)` takes the token `t`. A `/` token passes for any punctuation. */
  predicate Accepts(term: Term, t: string)
  {
    match term
    case Punct(token) => t == token || t == "/"
    case IdentTerm => Ident(t)
    case LiteralTerm => PChars(t)
    case EofTerm => t == EOF
  }

  // ----- The tokeniser -----

  datatype Mode = Init | Field | Nested

  function Delims(mode: Mode): set<char>
  {
    match mode
    case Init => {'/', '{'}
    case Field => {'.', '=', '}'}
    case Nested => {'/', '}'}
  }

  function Next(mode: Mode, r: char): Mode
  {
    if r == '{' then Field else
    if r == '=' then Nested else
    if r == '}' then Init else mode
  }

  function Scan(path: string, mode: Mode): (tokens: seq<string>)
    ensures tokens == [] <==> path == ""
    decreases |path|
  {
    if path == "" then [] else
    var idx := IndexAny(path, Delims(mode));
    if idx < 0 then [path] else
    (if idx == 0 then [] else [path[..idx]])
    + ([path[idx..idx + 1]] + Scan(path[idx + 1..], Next(mode, path[idx])))
  }

  /** Splits a verb off the last token: the text after its last colon. */
  function Strip(tokens: seq<string>): (seq<string>, string)
    requires tokens != []
  {
    var l := |tokens|;
    var t := tokens[l - 1];
    var idx := LastIndex(t, ':');
    if idx == 0 then (tokens[..l - 1], t[1..]) else
    if idx > 0 then (tokens[..l - 1] + [t[..idx]], t[idx + 1..]) else (tokens, "")
  }

  function Tokens(path: string): (seq<string>, string)
  {
    if path == "" then ([EOF], "") else
    var (tokens, verb) := Strip(Scan(path, Init));
    (tokens + [EOF], verb)
  }

  method Tokenize(path: string) returns (tokens: seq<string>, verb: string)
    ensures (tokens, verb) == Tokens(path)
    ensures |tokens| > 0 && tokens[|tokens| - 1] == EOF
  {
    if path == "" {
      return [EOF], "";
    }
    verb := "";
    tokens := Cut(path);
    var l := |tokens|;
    var t := tokens[l - 1];
    var idx := LastIndex(t, ':');
    if idx == 0 {
      tokens, verb := tokens[..l - 1], t[1..];
    } else if idx > 0 {
      tokens, verb := tokens[..l - 1] + [t[..idx]], t[idx + 1..];
    }
    tokens := tokens + [EOF];
  }

  /** The loop of `tokenize`. */
  method Cut(path: string) returns (tokens: seq<string>)
    ensures tokens == Scan(path, Init)
  {
    var st, rest := Init, path;
    tokens := [];
    while rest != ""
      invariant tokens + Scan(rest, st) == Scan(path, Init)
      decreases |rest|
    {
      var idx := IndexAny(rest, Delims(st));
      if idx < 0 {
        tokens := tokens + [rest];
        return;
      }
      var r := rest[idx];
      ghost var head := if idx == 0 then [] else [rest[..idx]];
      PlusAssociates(tokens, head, [rest[idx..idx + 1]] + Scan(rest[idx + 1..], Next(st, r)));
      PlusAssociates(tokens + head, [rest[idx..idx + 1]], Scan(rest[idx + 1..], Next(st, r)));
      if r == '{' {
        st := Field;
      } else if r == '=' {
        st := Nested;
      } else if r == '}' {
        st := Init;
      }
      if idx == 0 {
        assert tokens + head == tokens;
        tokens := tokens + [rest[idx..idx + 1]];
      } else {
        assert tokens + head + [rest[idx..idx + 1]] == tokens + [rest[..idx], rest[idx..idx + 1]];
        tokens := tokens + [rest[..idx], rest[idx..idx + 1]];
      }
      rest := rest[idx + 1..];
    }
    assert tokens + [] == tokens;
  }

  // ----- The parser, on the tokens that remain -----

  /** What a parser method returns, and the tokens it leaves. */
  type Parsed<T> = Result<(T, seq<string>)>

  function SegmentsAt(ts: seq<string>): (r: Parsed<seq<Segment>>)
    ensures r.Ok? ==> |r.value.1| < |ts| && r.value.0 != []
    decreases |ts|, 2
  {
    match SegmentAt(ts)
    case Err => Err
    case Ok((s, rest)) => Cons(s, MoreSegmentsAt(rest))
  }

  /** The loop of `segments` from the point after a segment. */
  function MoreSegmentsAt(rest: seq<string>): (r: Parsed<seq<Segment>>)
    ensures r.Ok? ==> |r.value.1| <= |rest|
    decreases |rest|, 3
  {
    if rest != [] && Accepts(Punct("/"), rest[0]) then SegmentsAt(rest[1..]) else Ok(([], rest))
  }

  function Cons(s: Segment, more: Parsed<seq<Segment>>): Parsed<seq<Segment>>
  {
    match more
    case Err => Err
    case Ok((ss, rest)) => Ok(([s] + ss, rest))
  }

  function SegmentAt(ts: seq<string>): (r: Parsed<Segment>)
    ensures r.Ok? ==> |r.value.1| < |ts|
    decreases |ts|, 1
  {
    if ts == [] then Err else
    if Accepts(Punct("*"), ts[0]) then Ok((Wildcard, ts[1..])) else
    if Accepts(Punct("**"), ts[0]) then Ok((DeepWildcard, ts[1..])) else
    if Accepts(LiteralTerm, ts[0]) then Ok((Literal(ts[0]), ts[1..])) else
    VariableAt(ts)
  }

  function VariableAt(ts: seq<string>): (r: Parsed<Segment>)
    ensures r.Ok? ==> |r.value.1| < |ts|
    decreases |ts|, 0
  {
    if ts == [] || !Accepts(Punct("{"), ts[0]) then Err else
    match FieldPathAt(ts[1..])
    case Err => Err
    case Ok((names, rest)) =>
      var path := Join(names, ".");
      if rest != [] && Accepts(Punct("="), rest[0]) then
        match SegmentsAt(rest[1..])
        case Err => Err
        case Ok((segs, rest')) => CloseAt(Variable(path, segs), rest')
      else
        CloseAt(Variable(path, [Wildcard]), rest)
  }

  function CloseAt(v: Segment, ts: seq<string>): (r: Parsed<Segment>)
    ensures r.Ok? ==> |r.value.1| < |ts|
  {
    if ts != [] && Accepts(Punct("}"), ts[0]) then Ok((v, ts[1..])) else Err
  }

  /** The identifiers of a field path. */
  function FieldPathAt(ts: seq<string>): (r: Parsed<seq<string>>)
    ensures r.Ok? ==> |r.value.1| < |ts|
    decreases |ts|
  {
    if ts == [] || !Accepts(IdentTerm, ts[0]) then Err else
    if |ts| > 1 && Accepts(Punct("."), ts[1]) then
      match FieldPathAt(ts[2..])
      case Err => Err
      case Ok((names, rest)) => Ok(([ts[0]] + names, rest))
    else
      Ok(([ts[0]], ts[1..]))
  }

  function ParseTemplate(tmpl: string): Result<Template>
  {
    if tmpl == "" || tmpl[0] != '/' then Err else
    var (tokens, verb) := Tokens(tmpl[1..]);
    match SegmentsAt(tokens)
    case Err => Err
    case Ok((segs, rest)) => if rest != [] && Accepts(EofTerm, rest[0]) then Ok(Template(verb, tmpl, segs)) else Err
  }

  /** `parser`. Its token list ends with EOF, and no terminal but `typeEOF` takes EOF, so a method that
      succeeds leaves at least EOF, and `accept` never meets an empty list. */
  class Parser {
    var tokens: seq<string>
    var accepted: seq<string>

    predicate Valid()
      reads this
    {
      |tokens| > 0 && tokens[|tokens| - 1] == EOF
    }

    /** Everything the parser was given: no token is lost or made up. */
    function All(): seq<string>
      reads this
    {
      accepted + tokens
    }

    constructor (tokens: seq<string>)
      ensures this.tokens == tokens && accepted == []
    {
      this.tokens := tokens;
      accepted := [];
    }

    method Accept(term: Term) returns (r: Result<string>)
      requires Valid() && term != Punct(EOF)
      modifies this
      ensures All() == old(All())
      ensures r.Ok? <==> Accepts(term, old(tokens[0]))
      ensures r.Ok? ==> r.value == old(tokens[0]) && tokens == old(tokens[1..])
      ensures r.Err? ==> tokens == old(tokens)
      ensures r.Err? || term != EofTerm ==> Valid()
    {
      var t := tokens[0];
      var ok;
      match term {
        case Punct(token) => ok := t == token || t == "/";
        case EofTerm => ok := t == EOF;
        case IdentTerm => ok := ExpectIdent(t);
        case LiteralTerm => ok := ExpectPChars(t);
      }
      if !ok {
        return Err;
      }
      if term != EofTerm {
        EofIsTakenByEofOnly(term);
      }
      tokens := tokens[1..];
      accepted := accepted + [t];
      return Ok(t);
    }

    method TopLevelSegments() returns (r: Result<seq<Segment>>)
      requires Valid()
      modifies this
      ensures All() == old(All())
      ensures match SegmentsAt(old(tokens))
        case Err => r.Err?
        case Ok((segs, rest)) => r == if rest != [] && Accepts(EofTerm, rest[0]) then Ok(segs) else Err
    {
      var segs := Segments();
      if segs.Err? {
        return Err;
      }
      var eof := Accept(EofTerm);
      if eof.Err? {
        return Err;
      }
      return segs;
    }

    method Segments() returns (r: Result<seq<Segment>>)
      requires Valid()
      modifies this
      ensures Valid() && All() == old(All())
      ensures |tokens| <= |old(tokens)|
      ensures match SegmentsAt(old(tokens))
        case Err => r.Err?
        case Ok((segs, rest)) => r == Ok(segs) && tokens == rest
      decreases |tokens|, 2
    {
      ghost var all, expected := All(), SegmentsAt(tokens);
      var first := SegmentOne();
      if first.Err? {
        return Err;
      }
      var segs := [first.value];
      while true
        invariant Valid() && All() == all
        invariant |tokens| < |old(tokens)|
        invariant expected == Prepend(segs, MoreSegmentsAt(tokens))
        decreases |tokens|
      {
        ghost var before := tokens;
        var slash := Accept(Punct("/"));
        if slash.Err? {
          assert segs + [] == segs;
          return Ok(segs);
        }
        var s := SegmentOne();
        if s.Err? {
          return Err;
        }
        PrependCons(segs, s.value, MoreSegmentsAt(tokens));
        segs := segs + [s.value];
      }
    }

    method SegmentOne() returns (r: Result<Segment>)
      requires Valid()
      modifies this
      ensures Valid() && All() == old(All())
      ensures |tokens| <= |old(tokens)|
      ensures match SegmentAt(old(tokens))
        case Err => r.Err?
        case Ok((s, rest)) => r == Ok(s) && tokens == rest
      decreases |tokens|, 1
    {
      var star := Accept(Punct("*"));
      if star.Ok? {
        return Ok(Wildcard);
      }
      var deep := Accept(Punct("**"));
      if deep.Ok? {
        return Ok(DeepWildcard);
      }
      var lit := Accept(LiteralTerm);
      if lit.Ok? {
        return Ok(Literal(lit.value));
      }
      r := VariableOne();
    }

    method VariableOne() returns (r: Result<Segment>)
      requires Valid()
      modifies this
      ensures Valid() && All() == old(All())
      ensures |tokens| <= |old(tokens)|
      ensures match VariableAt(old(tokens))
        case Err => r.Err?
        case Ok((s, rest)) => r == Ok(s) && tokens == rest
      decreases |tokens|, 0
    {
      var open := Accept(Punct("{"));
      if open.Err? {
        return Err;
      }
      var path := FieldPath();
      if path.Err? {
        return Err;
      }
      var segs: seq<Segment>;
      var equals := Accept(Punct("="));
      if equals.Ok? {
        var body := Segments();
        if body.Err? {
          return Err;
        }
        segs := body.value;
      } else {
        segs := [Wildcard];
      }
      var close := Accept(Punct("}"));
      if close.Err? {
        return Err;
      }
      return Ok(Variable(path.value, segs));
    }

    method FieldPath() returns (r: Result<string>)
      requires Valid()
      modifies this
      ensures Valid() && All() == old(All())
      ensures |tokens| <= |old(tokens)|
      ensures match FieldPathAt(old(tokens))
        case Err => r.Err?
        case Ok((names, rest)) => r == Ok(Join(names, ".")) && tokens == rest
    {
      ghost var all, expected := All(), FieldPathAt(tokens);
      var c := Accept(IdentTerm);
      if c.Err? {
        return Err;
      }
      var components := [c.value];
      while true
        invariant Valid() && All() == all && |tokens| < |old(tokens)|
        invariant components != []
        invariant expected == PathFrom(components, tokens)
        decreases |tokens|
      {
        var dot := Accept(Punct("."));
        if dot.Err? {
          return Ok(Join(components, "."));
        }
        ghost var before := tokens;
        var next := Accept(IdentTerm);
        if next.Err? {
          return Err;
        }
        PathFromStep(components, before);
        components := components + [next.value];
      }
    }
  }

  lemma EofIsTakenByEofOnly(term: Term)
    requires term != EofTerm && term != Punct(EOF)
    ensures !Accepts(term, EOF)
  {
    assert EOF[0] == '\0' && EOF[0] in EOF && !IsIdentChar('\0') && !IsPlain('\0');
  }

  ghost function Prepend(segs: seq<Segment>, more: Parsed<seq<Segment>>): Parsed<seq<Segment>>
  {
    match more
    case Err => Err
    case Ok((ss, rest)) => Ok((segs + ss, rest))
  }

  lemma PrependCons(segs: seq<Segment>, s: Segment, more: Parsed<seq<Segment>>)
    ensures Prepend(segs, Cons(s, more)) == Prepend(segs + [s], more)
  {
    if more.Ok? {
      assert segs + ([s] + more.value.0) == segs + [s] + more.value.0;
    }
  }

  /** The result of `fieldPath` once `components` have been read and `ts` remain. */
  ghost function PathFrom(components: seq<string>, ts: seq<string>): Parsed<seq<string>>
  {
    if ts != [] && Accepts(Punct("."), ts[0]) then
      match FieldPathAt(ts[1..])
      case Err => Err
      case Ok((names, rest)) => Ok((components + names, rest))
    else
      Ok((components, ts))
  }

  lemma PathFromStep(components: seq<string>, ts: seq<string>)
    requires ts != [] && Accepts(IdentTerm, ts[0])
    ensures match FieldPathAt(ts)
      case Err => PathFrom(components + [ts[0]], ts[1..]).Err?
      case Ok((names, rest)) => PathFrom(components + [ts[0]], ts[1..]) == Ok((components + names, rest))
  {
    if |ts| > 1 && Accepts(Punct("."), ts[1]) {
      assert ts[1..][1..] == ts[2..];
      if FieldPathAt(ts[2..]).Ok? {
        var names := FieldPathAt(ts[2..]).value.0;
        assert components + ([ts[0]] + names) == components + [ts[0]] + names;
      }
    }
  }

  /** `Parse` */
  method ParseString(tmpl: string) returns (r: Result<Template>)
    ensures r == ParseTemplate(tmpl)
  {
    if |tmpl| == 0 || tmpl[0] != '/' {
      return Err;
    }
    var tokens, verb := Tokenize(tmpl[1..]);
    var p := new Parser(tokens);
    var segs := p.TopLevelSegments();
    if segs.Err? {
      return Err;
    }
    return Ok(Template(verb, tmpl, segs.value));
  }
}
