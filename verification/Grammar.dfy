/** The template syntax as a grammar, independent of the parser. */
module Grammar {
  import opened Parse
  import opened Text
  import opened Types
  import opened Wrappers

  // Surface trees, their tokens and the segments they stand for. The parser accepts the tokens of a tree, and
  // nothing else.

  /** A segment as written. `*` may be written as an empty segment, whose token is the next `/`; a
      variable may leave out its body, which then is `*`. */
  datatype Piece =
    | Star(slash: bool)
    | Deep
    | Lit(text: string)
    | Short(names: seq<string>)
    | Long(names: seq<string>, body: seq<Piece>)

  /** The segment that a piece stands for. */
  function Meant(p: Piece): Segment
  {
    match p
    case Star(_) => Wildcard
    case Deep => DeepWildcard
    case Lit(text) => Literal(text)
    case Short(names) => Variable(Join(names, "."), [Wildcard])
    case Long(names, body) => Variable(Join(names, "."), MeantAll(body))
  }

  function MeantAll(ps: seq<Piece>): (r: seq<Segment>)
    ensures |r| == |ps|
  {
    if ps == [] then [] else [Meant(ps[0])] + MeantAll(ps[1..])
  }

  /** The tokens of a piece. */
  function Written(p: Piece): (r: seq<string>)
    ensures r != []
  {
    match p
    case Star(slash) => [if slash then "/" else "*"]
    case Deep => ["**"]
    case Lit(text) => [text]
    case Short(names) => ["{"] + (NameTokens(names) + ["}"])
    case Long(names, body) => ["{"] + (NameTokens(names) + (["="] + (WrittenAll(body) + ["}"])))
  }

  function WrittenAll(ps: seq<Piece>): (r: seq<string>)
    ensures r == [] <==> ps == []
  {
    if ps == [] then [] else
    if |ps| == 1 then Written(ps[0]) else Written(ps[0]) + (["/"] + WrittenAll(ps[1..]))
  }

  function NameTokens(names: seq<string>): (r: seq<string>)
    ensures r == [] <==> names == []
  {
    if names == [] then [] else
    if |names| == 1 then [names[0]] else [names[0]] + (["."] + NameTokens(names[1..]))
  }

  predicate LiteralOk(text: string)
  {
    text != "" && text != "*" && text != "**" && PChars(text)
  }

  predicate NamesOk(names: seq<string>)
  {
    names != [] && forall n <- names :: Ident(n)
  }

  /** A piece of the grammar; `inner` for one inside a variable, which cannot be a variable. */
  predicate PieceOk(p: Piece, inner: bool)
  {
    match p
    case Lit(text) => LiteralOk(text)
    case Short(names) => !inner && NamesOk(names)
    case Long(names, body) => !inner && NamesOk(names) && PiecesOk(body, true)
    case _ => true
  }

  predicate PiecesOk(ps: seq<Piece>, inner: bool)
  {
    ps != [] && forall p <- ps :: PieceOk(p, inner)
  }

  // ----- The parser accepts what the grammar derives -----

  /** The token after a list of segments is not a `/`. */
  predicate Ends(rest: seq<string>)
  {
    rest == [] || rest[0] != "/"
  }

  lemma {:induction false} NamesParse(names: seq<string>, rest: seq<string>)
    requires NamesOk(names) && (rest == [] || !Accepts(Punct("."), rest[0]))
    ensures FieldPathAt(NameTokens(names) + rest) == Ok((names, rest))
    decreases |names|
  {
    assert Ident(names[0]) && names == [names[0]] + names[1..];
    if |names| == 1 {
      var ts := NameTokens(names) + rest;
      assert ts[1..] == rest && ts[0] == names[0] && names == [names[0]];
    } else {
      NameThenDot(names, rest);
      NamesParse(names[1..], rest);
    }
  }

  lemma NamesTokens(names: seq<string>, tail: seq<string>)
    requires |names| > 1
    ensures NameTokens(names) + tail == [names[0]] + (["."] + (NameTokens(names[1..]) + tail))
  {
    var more := NameTokens(names[1..]);
    PlusAssociates([names[0]], ["."] + more, tail);
    PlusAssociates(["."], more, tail);
  }

  lemma NameThenDot(names: seq<string>, rest: seq<string>)
    requires |names| > 1
    ensures var ts := NameTokens(names) + rest;
      |ts| > 1 && ts[0] == names[0] && ts[1] == "." && ts[2..] == NameTokens(names[1..]) + rest
  {
    NamesTokens(names, rest);
  }

  /** The parser on `{`, the names and the tokens after them. */
  lemma VariableParse(names: seq<string>, after: seq<string>)
    requires NamesOk(names) && after != [] && after[0] != "." && after[0] != "/"
    ensures SegmentAt(["{"] + (NameTokens(names) + after))
         == if after[0] == "=" then
              match SegmentsAt(after[1..])
              case Err => Err
              case Ok((segs, rest)) => CloseAt(Variable(Join(names, "."), segs), rest)
            else CloseAt(Variable(Join(names, "."), [Wildcard]), after)
  {
    var ts := ["{"] + (NameTokens(names) + after);
    assert "{"[0] == '{' && !IsPlain('{');
    assert SegmentAt(ts) == VariableAt(ts);
    assert ts[1..] == NameTokens(names) + after;
    NamesParse(names, after);
  }

  lemma ShortTokens(names: seq<string>, rest: seq<string>)
    ensures Written(Short(names)) + rest == ["{"] + (NameTokens(names) + (["}"] + rest))
  {
  }

  lemma LongTokens(names: seq<string>, body: seq<Piece>, rest: seq<string>)
    ensures Written(Long(names, body)) + rest
         == ["{"] + (NameTokens(names) + (["="] + (WrittenAll(body) + (["}"] + rest))))
  {
  }

  lemma ShortParse(names: seq<string>, rest: seq<string>)
    requires NamesOk(names)
    ensures SegmentAt(Written(Short(names)) + rest) == Ok((Meant(Short(names)), rest))
  {
    var close := ["}"] + rest;
    VariableParse(names, close);
    assert close[1..] == rest;
    ShortTokens(names, rest);
  }

  lemma LongParse(names: seq<string>, body: seq<Piece>, rest: seq<string>)
    requires NamesOk(names)
    requires SegmentsAt(WrittenAll(body) + (["}"] + rest)) == Ok((MeantAll(body), ["}"] + rest))
    ensures SegmentAt(Written(Long(names, body)) + rest) == Ok((Meant(Long(names, body)), rest))
  {
    var close := ["}"] + rest;
    var after := ["="] + (WrittenAll(body) + close);
    VariableParse(names, after);
    assert after[1..] == WrittenAll(body) + close && close[1..] == rest;
    LongTokens(names, body, rest);
  }

  lemma {:induction false} PieceParse(p: Piece, inner: bool, rest: seq<string>)
    requires PieceOk(p, inner)
    ensures SegmentAt(Written(p) + rest) == Ok((Meant(p), rest))
    decreases p, 0
  {
    match p
    case Short(names) =>
      ShortParse(names, rest);
    case Long(names, body) =>
      PiecesParse(body, true, ["}"] + rest);
      LongParse(names, body, rest);
    case _ =>
      AtomParse(p, inner, rest);
  }

  lemma AtomParse(p: Piece, inner: bool, rest: seq<string>)
    requires PieceOk(p, inner) && !p.Short? && !p.Long?
    ensures SegmentAt(Written(p) + rest) == Ok((Meant(p), rest))
  {
    assert (Written(p) + rest)[1..] == rest;
    if p.Lit? {
      assert "/"[0] == '/' && !IsPlain('/');
    }
  }

  lemma {:induction false} PiecesParse(ps: seq<Piece>, inner: bool, rest: seq<string>)
    requires PiecesOk(ps, inner) && Ends(rest)
    ensures SegmentsAt(WrittenAll(ps) + rest) == Ok((MeantAll(ps), rest))
    decreases ps, 1
  {
    assert PieceOk(ps[0], inner);
    if |ps| == 1 {
      PieceParse(ps[0], inner, rest);
      assert MeantAll(ps) == [Meant(ps[0])] + [];
    } else {
      var more := ["/"] + (WrittenAll(ps[1..]) + rest);
      assert WrittenAll(ps) + rest == Written(ps[0]) + more;
      PieceParse(ps[0], inner, more);
      assert more[1..] == WrittenAll(ps[1..]) + rest;
      PiecesParse(ps[1..], inner, rest);
    }
  }

  // ----- The parser accepts nothing else, on tokens that the tokeniser can produce -----

  predicate IsDelim(t: string, mode: Mode)
  {
    |t| == 1 && t[0] in Delims(mode)
  }

  predicate IsText(t: string, mode: Mode)
  {
    t != "" && forall r <- t :: r !in Delims(mode)
  }

  /** Tokens cut in `mode` and closed by EOF: a text token is followed by a delimiter of its mode or by
      the closing EOF. */
  predicate Tagged(ts: seq<string>, mode: Mode)
    decreases |ts|, 0
  {
    && ts != []
    && (|| ts == [EOF]
        || (IsDelim(ts[0], mode) && Tagged(ts[1..], Next(mode, ts[0][0])))
        || (IsText(ts[0], mode) && FollowsText(ts[1..], mode)))
  }

  predicate FollowsText(ts: seq<string>, mode: Mode)
    decreases |ts|, 1
  {
    ts == [EOF] || (ts != [] && IsDelim(ts[0], mode) && Tagged(ts, mode))
  }

  lemma TextIsNotDelim(t: string, mode: Mode)
    requires IsDelim(t, mode)
    ensures !IsText(t, mode) && t != EOF && !Ident(t) && (mode != Field ==> !PChars(t))
  {
    assert t[0] in t;
    assert EOF[0] == '\0';
  }

  /** A field path is a list of identifiers separated by dots: a `/` cannot stand for a dot here. */
  lemma {:induction false} FieldPathSound(ts: seq<string>)
    requires Tagged(ts, Field) && FieldPathAt(ts).Ok?
    ensures var (names, rest) := FieldPathAt(ts).value;
      && NamesOk(names)
      && NameTokens(names) + rest == ts
      && FollowsText(rest, Field)
      && rest[0] != "."
    decreases |ts|
  {
    var (names, rest) := FieldPathAt(ts).value;
    EofIsTakenByEofOnly(IdentTerm);
    if IsDelim(ts[0], Field) {
      TextIsNotDelim(ts[0], Field);
    }
    assert FollowsText(ts[1..], Field);
    EofIsTakenByEofOnly(Punct("."));
    if |ts| > 1 && Accepts(Punct("."), ts[1]) {
      assert ts[1] == ts[1..][0] && ts[1..] != [EOF];
      assert ts[1] == "." && ts[1..][1..] == ts[2..];
      TextIsNotDelim(ts[1], Field);
      assert Tagged(ts[1..], Field) && "."[0] == '.' && Next(Field, '.') == Field;
      assert Tagged(ts[1..][1..], Field);
      FieldPathSound(ts[2..]);
      var (names', _) := FieldPathAt(ts[2..]).value;
      assert names == [ts[0]] + names' && names[1..] == names';
      NamesTokens(names, rest);
    }
  }

  /** A token list is what a piece writes, followed by tokens of the same mode. */
  ghost predicate Reads(p: Piece, s: Segment, ts: seq<string>, rest: seq<string>, mode: Mode)
  {
    PieceOk(p, mode == Nested) && Meant(p) == s && Written(p) + rest == ts && Tagged(rest, mode)
  }

  ghost predicate ReadsAll(ps: seq<Piece>, segs: seq<Segment>, ts: seq<string>, rest: seq<string>, mode: Mode)
  {
    && PiecesOk(ps, mode == Nested) && MeantAll(ps) == segs && WrittenAll(ps) + rest == ts
    && Ends(rest) && Tagged(rest, mode)
  }

  lemma ReadsLast(p: Piece, s: Segment, ts: seq<string>, rest: seq<string>, mode: Mode)
    requires Reads(p, s, ts, rest, mode) && Ends(rest)
    ensures ReadsAll([p], [s], ts, rest, mode)
  {
    assert MeantAll([p]) == [Meant(p)] + [] && [s] + [] == [s];
  }

  lemma ReadsCons(p: Piece, s: Segment, ts: seq<string>, middle: seq<string>, ps: seq<Piece>, segs: seq<Segment>,
                  rest: seq<string>, mode: Mode)
    requires Reads(p, s, ts, middle, mode) && middle[0] == "/" && ReadsAll(ps, segs, middle[1..], rest, mode)
    ensures ReadsAll([p] + ps, [s] + segs, ts, rest, mode)
  {
    var all := [p] + ps;
    assert all[1..] == ps;
    assert middle == ["/"] + middle[1..];
    assert WrittenAll(all) + rest == Written(p) + (["/"] + (WrittenAll(ps) + rest));
  }

  lemma {:induction false} SegmentsSound(ts: seq<string>, mode: Mode) returns (ps: seq<Piece>)
    requires mode != Field && Tagged(ts, mode) && SegmentsAt(ts).Ok?
    ensures ReadsAll(ps, SegmentsAt(ts).value.0, ts, SegmentsAt(ts).value.1, mode)
    decreases |ts|, 2
  {
    var (s, rest) := SegmentAt(ts).value;
    var p := SegmentSound(ts, mode);
    AfterSegment(ts, s, rest);
    if rest[0] == "/" {
      assert IsDelim(rest[0], mode);
      TextIsNotDelim(rest[0], mode);
      var more := SegmentsSound(rest[1..], mode);
      var (segs, end) := SegmentsAt(rest[1..]).value;
      ReadsCons(p, s, ts, rest, more, segs, end, mode);
      ps := [p] + more;
    } else {
      ps := [p];
      ReadsLast(p, s, ts, rest, mode);
    }
  }

  lemma AfterSegment(ts: seq<string>, s: Segment, rest: seq<string>)
    requires SegmentAt(ts) == Ok((s, rest)) && SegmentsAt(ts).Ok?
    ensures rest != [] && rest[0] == "/" ==>
      SegmentsAt(rest[1..]).Ok? && SegmentsAt(ts).value.0 == [s] + SegmentsAt(rest[1..]).value.0
      && SegmentsAt(ts).value.1 == SegmentsAt(rest[1..]).value.1
    ensures rest != [] && rest[0] != "/" ==> SegmentsAt(ts).value == ([s], rest)
  {
    assert [s] + [] == [s];
  }

  lemma {:induction false} SegmentSound(ts: seq<string>, mode: Mode) returns (p: Piece)
    requires mode != Field && Tagged(ts, mode) && SegmentAt(ts).Ok?
    ensures Reads(p, SegmentAt(ts).value.0, ts, SegmentAt(ts).value.1, mode)
    decreases |ts|, 1
  {
    var t := ts[0];
    if Accepts(Punct("*"), t) || Accepts(Punct("**"), t) || Accepts(LiteralTerm, t) {
      p := AtomSound(ts, mode);
    } else {
      p := VariableSound(ts, mode);
    }
  }

  lemma AtomSound(ts: seq<string>, mode: Mode) returns (p: Piece)
    requires mode != Field && Tagged(ts, mode)
    requires Accepts(Punct("*"), ts[0]) || Accepts(Punct("**"), ts[0]) || Accepts(LiteralTerm, ts[0])
    ensures SegmentAt(ts).Ok? && Reads(p, SegmentAt(ts).value.0, ts, SegmentAt(ts).value.1, mode)
  {
    var t := ts[0];
    assert ts == [t] + ts[1..];
    EofIsTakenByEofOnly(Punct("*"));
    EofIsTakenByEofOnly(Punct("**"));
    EofIsTakenByEofOnly(LiteralTerm);
    p := if t == "/" then Star(true) else if t == "*" then Star(false) else if t == "**" then Deep else Lit(t);
    if IsDelim(t, mode) {
      TextIsNotDelim(t, mode);
    }
  }

  lemma {:induction false} VariableSound(ts: seq<string>, mode: Mode) returns (p: Piece)
    requires mode != Field && Tagged(ts, mode) && VariableAt(ts).Ok? && ts[0] != "/"
    ensures Reads(p, VariableAt(ts).value.0, ts, VariableAt(ts).value.1, mode)
    decreases |ts|, 0
  {
    BraceOpensField(ts, mode);
    var (names, rest) := FieldPathAt(ts[1..]).value;
    FieldPathSound(ts[1..]);
    EofIsTakenByEofOnly(Punct("="));
    EofIsTakenByEofOnly(Punct("}"));
    assert rest[0] != EOF;
    TextIsNotDelim(rest[0], Field);
    if rest[0] == "=" {
      var body := SegmentsSound(rest[1..], Nested);
      var (_, rest') := SegmentsAt(rest[1..]).value;
      assert rest'[0] == "}";
      TextIsNotDelim(rest'[0], Nested);
      p := Long(names, body);
      LongRegroup(names, body, ts, rest, rest');
    } else {
      p := Short(names);
      ShortRegroup(names, ts, rest);
    }
  }

  lemma ShortRegroup(names: seq<string>, ts: seq<string>, rest: seq<string>)
    requires ts != [] && ts[0] == "{" && NameTokens(names) + rest == ts[1..]
    requires rest != [] && rest[0] == "}"
    ensures Written(Short(names)) + rest[1..] == ts
  {
    assert rest == ["}"] + rest[1..];
    assert ts == ["{"] + (NameTokens(names) + rest);
  }

  lemma LongRegroup(names: seq<string>, body: seq<Piece>, ts: seq<string>, rest: seq<string>, rest': seq<string>)
    requires ts != [] && ts[0] == "{" && NameTokens(names) + rest == ts[1..]
    requires rest != [] && rest[0] == "=" && WrittenAll(body) + rest' == rest[1..]
    requires rest' != [] && rest'[0] == "}"
    ensures Written(Long(names, body)) + rest'[1..] == ts
  {
    assert rest' == ["}"] + rest'[1..];
    assert rest == ["="] + (WrittenAll(body) + (["}"] + rest'[1..]));
    assert ts == ["{"] + (NameTokens(names) + rest);
  }

  /** The token `{` that opens a variable was cut as a delimiter outside variables: in a variable's body
      `{` is text, and no identifier follows text. */
  lemma BraceOpensField(ts: seq<string>, mode: Mode)
    requires mode != Field && Tagged(ts, mode) && VariableAt(ts).Ok? && ts[0] != "/"
    ensures mode == Init && ts[0] == "{" && Tagged(ts[1..], Field)
  {
    EofIsTakenByEofOnly(Punct("{"));
    EofIsTakenByEofOnly(IdentTerm);
    var rest := ts[1..];
    if mode == Nested {
      assert FollowsText(rest, mode);
      if IsDelim(rest[0], mode) {
        TextIsNotDelim(rest[0], mode);
      }
    } else {
      assert IsDelim(ts[0], Init);
      TextIsNotDelim(ts[0], Init);
    }
  }
}
