/** Which strings `Parse` accepts, and as what. */
module Language {
  import opened CompilerTheorem
  import opened Grammar
  import opened Meaning
  import opened Parse
  import opened Runtime
  import opened Text
  import opened Tokeniser
  import opened Types
  import opened Wrappers

  predicate VerbOk(verb: string)
  {
    '/' !in verb && '{' !in verb && ':' !in verb
  }

  /** The last piece is a literal with a colon, which would be read as the start of a verb. */
  predicate ColonLast(segments: seq<Segment>)
  {
    segments != [] && var s := segments[|segments| - 1]; s.Literal? && ':' in s.text
  }

  /** `tmpl` is a slash, the pieces, and a verb part: `:` and a verb, or nothing if no colon in the last
      piece could be taken for one. */
  predicate Spells(tmpl: string, ps: seq<Piece>, verb: string)
  {
    && PiecesOk(ps, false)
    && VerbOk(verb)
    && (|| tmpl == "/" + Concat(WrittenAll(ps)) + ":" + verb
        || (tmpl == "/" + Concat(WrittenAll(ps)) && verb == "" && !ColonLast(MeantAll(ps))))
  }

  /** With NULs in the string there is one more freedom: a NUL token ends the input for the parser, so that
      the tokens from it on are ignored. The verb is still split off behind all tokens. */
  predicate SpellsWith(tmpl: string, ps: seq<Piece>, ignored: seq<string>, verb: string)
  {
    var ts := WrittenAll(ps) + ignored;
    && PiecesOk(ps, false)
    && (ignored == [] || ignored[0] == EOF)
    && Legit(ts, Init)
    && ':' !in verb && (forall r <- verb :: r !in Delims(FinalMode(ts, Init)))
    && (|| tmpl == "/" + Concat(ts) + ":" + verb
        || (tmpl == "/" + Concat(ts) && verb == "" && ':' !in ts[|ts| - 1]))
  }

  // ----- Every spelling is accepted -----

  /** Only a literal's token holds a colon. */
  lemma {:induction false} LastTokenIs(ps: seq<Piece>)
    requires PiecesOk(ps, false)
    ensures var ts, p := WrittenAll(ps), ps[|ps| - 1];
      (':' in ts[|ts| - 1] <==> p.Lit? && ':' in p.text) && (p.Lit? ==> ts[|ts| - 1] == p.text)
    decreases |ps|
  {
    assert PieceOk(ps[0], false);
    if |ps| == 1 {
      LastOfPiece(ps[0]);
    } else {
      LastTokenIs(ps[1..]);
      var ts, rest := WrittenAll(ps), WrittenAll(ps[1..]);
      assert ts[|ts| - 1] == rest[|rest| - 1];
    }
  }

  lemma LastToken(ps: seq<Piece>)
    requires PiecesOk(ps, false)
    ensures var ts := WrittenAll(ps); ':' in ts[|ts| - 1] <==> ColonLast(MeantAll(ps))
    ensures ColonLast(MeantAll(ps)) ==> Lit(WrittenAll(ps)[|WrittenAll(ps)| - 1]) == ps[|ps| - 1]
  {
    LastTokenIs(ps);
    MeantLast(ps);
  }

  lemma LastOfPiece(p: Piece)
    requires PieceOk(p, false)
    ensures var ts := Written(p); ':' in ts[|ts| - 1] <==> p.Lit? && ':' in p.text
    ensures p.Lit? ==> Written(p) == [p.text]
  {
    match p
    case Short(names) => assert Written(p)[|Written(p)| - 1] == "}";
    case Long(names, body) => assert Written(p)[|Written(p)| - 1] == "}";
    case _ =>
  }

  lemma {:induction false} MeantLast(ps: seq<Piece>)
    requires ps != []
    ensures MeantAll(ps)[|ps| - 1] == Meant(ps[|ps| - 1])
  {
    if |ps| > 1 {
      MeantLast(ps[1..]);
    }
  }

  lemma WrittenAreLegit(ps: seq<Piece>)
    requires PiecesOk(ps, false)
    ensures Legit(WrittenAll(ps), Init) && FinalMode(WrittenAll(ps), Init) == Init
  {
    PiecesAreLegit(ps, Init, []);
    assert WrittenAll(ps) + [] == WrittenAll(ps);
  }

  lemma SlashAndVerb(text: string, verb: string)
    ensures "/" + text + ":" + verb == "/" + (text + (":" + verb))
  {
    PlusAssociates("/" + text, ":", verb);
    PlusAssociates("/", text, ":" + verb);
  }

  lemma AfterSlash(text: string)
    ensures ("/" + text)[1..] == text
  {
  }

  /** Without NULs the two are the same. */
  lemma SpellsWithNothing(tmpl: string, ps: seq<Piece>, verb: string)
    ensures SpellsWith(tmpl, ps, [], verb) <==> Spells(tmpl, ps, verb)
  {
    assert WrittenAll(ps) + [] == WrittenAll(ps);
    if PiecesOk(ps, false) {
      WrittenAreLegit(ps);
      LastToken(ps);
      assert Delims(Init) == {'/', '{'};
      assert VerbOk(verb) <==> ':' !in verb && forall r <- verb :: r !in Delims(Init);
    }
  }

  lemma TokensAre(path: string, cut: seq<string>, ts: seq<string>, verb: string)
    requires cut != [] && Concat(cut) == path && Legit(cut, Init) && Strip(cut) == (ts, verb)
    ensures Tokens(path) == (ts + [EOF], verb)
  {
    LegitScans(cut, Init);
  }

  lemma CutWithVerb(ts: seq<string>, verb: string)
    requires ts != [] && Legit(ts, Init) && ':' !in verb && forall r <- verb :: r !in Delims(FinalMode(ts, Init))
    ensures Tokens(Concat(ts) + (":" + verb)) == (ts + [EOF], verb)
  {
    assert forall r <- ":" + verb :: r == ':' || r in verb;
    ExtendStrips(ts, Init, verb);
    TokensAre(Concat(ts) + (":" + verb), Extend(ts, Init, ":" + verb), ts, verb);
  }

  lemma CutPlain(ts: seq<string>)
    requires ts != [] && Legit(ts, Init) && ':' !in ts[|ts| - 1]
    ensures Tokens(Concat(ts)) == (ts + [EOF], "")
  {
    assert Strip(ts) == (ts, "");
    TokensAre(Concat(ts), ts, ts, "");
  }

  lemma SpelledWithIsParsed(tmpl: string, ps: seq<Piece>, ignored: seq<string>, verb: string)
    requires SpellsWith(tmpl, ps, ignored, verb)
    ensures ParseTemplate(tmpl) == Ok(Template(verb, tmpl, MeantAll(ps)))
  {
    SpelledTokens(tmpl, ps, ignored, verb);
    PiecesParse(ps, false, ignored + [EOF]);
    ParsedTokens(tmpl, WrittenAll(ps) + (ignored + [EOF]), verb, MeantAll(ps), ignored + [EOF]);
  }

  lemma ParsedTokens(tmpl: string, tokens: seq<string>, verb: string, segs: seq<Segment>, rest: seq<string>)
    requires tmpl != "" && tmpl[0] == '/' && Tokens(tmpl[1..]) == (tokens, verb)
    requires SegmentsAt(tokens) == Ok((segs, rest)) && rest != [] && rest[0] == EOF
    ensures ParseTemplate(tmpl) == Ok(Template(verb, tmpl, segs))
  {
  }

  lemma SpelledTokens(tmpl: string, ps: seq<Piece>, ignored: seq<string>, verb: string)
    requires SpellsWith(tmpl, ps, ignored, verb)
    ensures tmpl != "" && tmpl[0] == '/' && Tokens(tmpl[1..]) == (WrittenAll(ps) + (ignored + [EOF]), verb)
  {
    var ts := WrittenAll(ps) + ignored;
    PlusAssociates(WrittenAll(ps), ignored, [EOF]);
    if tmpl == "/" + Concat(ts) + ":" + verb {
      SlashAndVerb(Concat(ts), verb);
      AfterSlash(Concat(ts) + (":" + verb));
      CutWithVerb(ts, verb);
    } else {
      AfterSlash(Concat(ts));
      CutPlain(ts);
    }
  }

  lemma SpellingIsParsed(tmpl: string, ps: seq<Piece>, verb: string)
    requires Spells(tmpl, ps, verb)
    ensures ParseTemplate(tmpl) == Ok(Template(verb, tmpl, MeantAll(ps)))
  {
    SpellsWithNothing(tmpl, ps, verb);
    SpelledWithIsParsed(tmpl, ps, [], verb);
  }

  // ----- Nothing else is -----

  /** Whatever is accepted starts with the tokens of well-formed pieces. */
  lemma ParsedHasPieces(tmpl: string) returns (ps: seq<Piece>, rest: seq<string>)
    requires ParseTemplate(tmpl).Ok?
    ensures tmpl != "" && tmpl[0] == '/' && tmpl[1..] != ""
    ensures PiecesOk(ps, false) && MeantAll(ps) == ParseTemplate(tmpl).value.segments
    ensures WrittenAll(ps) + rest == Strip(Scan(tmpl[1..], Init)).0 + [EOF]
    ensures rest != [] && rest[0] == EOF
  {
    var path := tmpl[1..];
    if path == "" {
      EofIsTakenByEofOnly(Punct("*"));
      EofIsTakenByEofOnly(Punct("**"));
      EofIsTakenByEofOnly(Punct("{"));
      EofIsTakenByEofOnly(LiteralTerm);
      assert SegmentAt([EOF]).Err?;
    } else {
      ScanIsLegit(path, Init);
      StripIsTagged(Scan(path, Init), Init);
      ps := SegmentsSound(Tokens(path).0, Init);
      rest := SegmentsAt(Tokens(path).0).value.1;
    }
  }

  lemma ParsedIsSpelled(tmpl: string)
    requires ParseTemplate(tmpl).Ok?
    ensures exists ps, ignored ::
      && SpellsWith(tmpl, ps, ignored, ParseTemplate(tmpl).value.verb)
      && MeantAll(ps) == ParseTemplate(tmpl).value.segments
  {
    var ps, rest := ParsedHasPieces(tmpl);
    var ignored := rest[..|rest| - 1];
    var ts := Scan(tmpl[1..], Init);
    ScanIsLegit(tmpl[1..], Init);
    ButLast(WrittenAll(ps), rest, Strip(ts).0, EOF);
    StrippedIsSpelling(ps, ignored, ts);
    ScannedText(tmpl);
    ParsedVerb(tmpl);
  }

  lemma ScannedText(tmpl: string)
    requires tmpl != "" && tmpl[0] == '/'
    ensures "/" + Concat(Scan(tmpl[1..], Init)) == tmpl
  {
    ScanIsLossless(tmpl[1..], Init);
    assert "/" + tmpl[1..] == tmpl;
  }

  lemma ParsedVerb(tmpl: string)
    requires ParseTemplate(tmpl).Ok? && tmpl[1..] != ""
    ensures ParseTemplate(tmpl).value.verb == Strip(Scan(tmpl[1..], Init)).1
  {
  }

  lemma ButLast(a: seq<string>, rest: seq<string>, c: seq<string>, last: string)
    requires rest != [] && a + rest == c + [last]
    ensures a + rest[..|rest| - 1] == c
  {
    assert a + rest[..|rest| - 1] == (a + rest)[..|a + rest| - 1];
    assert c == (c + [last])[..|c + [last]| - 1];
  }

  lemma StrippedIsSpelling(ps: seq<Piece>, ignored: seq<string>, ts: seq<string>)
    requires ts != [] && Legit(ts, Init) && PiecesOk(ps, false)
    requires Strip(ts).0 == WrittenAll(ps) + ignored && (ignored == [] || ignored[0] == EOF)
    ensures SpellsWith("/" + Concat(ts), ps, ignored, Strip(ts).1)
  {
    StripIsLegit(ts, Init);
    StripWrites(ts, Init);
    SlashAndVerb(Concat(Strip(ts).0), Strip(ts).1);
  }

  /** The language of templates. `Parse` accepts exactly the spellings of well-formed pieces with a verb, and
      returns the segments that the pieces stand for. */
  lemma ParseLanguage(tmpl: string, verb: string, segments: seq<Segment>)
    ensures ParseTemplate(tmpl) == Ok(Template(verb, tmpl, segments))
       <==> exists ps, ignored :: SpellsWith(tmpl, ps, ignored, verb) && MeantAll(ps) == segments
  {
    if ParseTemplate(tmpl) == Ok(Template(verb, tmpl, segments)) {
      ParsedIsSpelled(tmpl);
    }
    forall ps, ignored | SpellsWith(tmpl, ps, ignored, verb) && MeantAll(ps) == segments
      ensures ParseTemplate(tmpl) == Ok(Template(verb, tmpl, segments))
    {
      SpelledWithIsParsed(tmpl, ps, ignored, verb);
    }
  }

  lemma {:induction false} TokenInText(ts: seq<string>, t: string)
    requires t in ts
    ensures forall r <- t :: r in Concat(ts)
  {
    if t != ts[0] {
      TokenInText(ts[1..], t);
    }
  }

  lemma IgnoredHasNul(tmpl: string, ps: seq<Piece>, ignored: seq<string>, verb: string)
    requires SpellsWith(tmpl, ps, ignored, verb) && ignored != []
    ensures '\0' in tmpl
  {
    var ts := WrittenAll(ps) + ignored;
    assert ts[|WrittenAll(ps)|] == EOF && EOF[0] == '\0';
    TokenInText(ts, EOF);
    SlashAndVerb(Concat(ts), verb);
  }

  /** A string without NUL has nothing that is ignored. */
  lemma NothingIgnored(tmpl: string, ps: seq<Piece>, ignored: seq<string>, verb: string)
    requires SpellsWith(tmpl, ps, ignored, verb) && '\0' !in tmpl
    ensures ignored == [] && Spells(tmpl, ps, verb)
  {
    if ignored != [] {
      IgnoredHasNul(tmpl, ps, ignored, verb);
    }
    SpellsWithNothing(tmpl, ps, verb);
  }

  /** On strings without NUL these are the plain spellings. */
  lemma NulFreeLanguage(tmpl: string, verb: string, segments: seq<Segment>)
    requires '\0' !in tmpl
    ensures ParseTemplate(tmpl) == Ok(Template(verb, tmpl, segments))
       <==> exists ps :: Spells(tmpl, ps, verb) && MeantAll(ps) == segments
  {
    ParseLanguage(tmpl, verb, segments);
    forall ps, ignored | SpellsWith(tmpl, ps, ignored, verb) && MeantAll(ps) == segments
      ensures Spells(tmpl, ps, verb)
    {
      NothingIgnored(tmpl, ps, ignored, verb);
    }
    forall ps | Spells(tmpl, ps, verb) && MeantAll(ps) == segments
      ensures SpellsWith(tmpl, ps, [], verb)
    {
      SpellsWithNothing(tmpl, ps, verb);
    }
  }

  // ----- The shape of what is accepted -----

  predicate PathOk(path: string)
  {
    NamesOk(Split(path, '.'))
  }

  predicate AtomOk(s: Segment)
  {
    !s.Variable? && (s.Literal? ==> LiteralOk(s.text))
  }

  predicate SegmentOk(s: Segment)
  {
    if s.Variable? then PathOk(s.path) && s.segments != [] && (forall a <- s.segments :: AtomOk(a)) else AtomOk(s)
  }

  /** Literals are pchar strings other than `*` and `**`; field paths are identifiers joined by dots;
      variable bodies are not empty and hold no variable. */
  predicate Shape(segments: seq<Segment>)
  {
    segments != [] && forall s <- segments :: SegmentOk(s)
  }

  lemma JoinedNames(names: seq<string>)
    requires NamesOk(names)
    ensures Split(Join(names, "."), '.') == names
  {
    forall n <- names ensures '.' !in n {
      assert Ident(n);
    }
    SplitJoin(names, '.');
  }

  lemma {:induction false} InnerShape(ps: seq<Piece>)
    requires forall p <- ps :: PieceOk(p, true)
    ensures forall s <- MeantAll(ps) :: AtomOk(s)
  {
    if ps != [] {
      assert PieceOk(ps[0], true);
      InnerShape(ps[1..]);
    }
  }

  lemma PieceShape(p: Piece)
    requires PieceOk(p, false)
    ensures SegmentOk(Meant(p))
  {
    match p
    case Short(names) => JoinedNames(names);
    case Long(names, body) =>
      JoinedNames(names);
      assert PiecesOk(body, true);
      InnerShape(body);
    case _ =>
  }

  lemma {:induction false} PiecesShape(ps: seq<Piece>)
    requires PiecesOk(ps, false)
    ensures Shape(MeantAll(ps))
  {
    PieceShape(ps[0]);
    if |ps| > 1 {
      PiecesShape(ps[1..]);
    }
  }

  /** Parser output shape: holds for every accepted string, NUL or not. */
  lemma ParsedShape(tmpl: string)
    requires ParseTemplate(tmpl).Ok?
    ensures Shape(ParseTemplate(tmpl).value.segments)
  {
    var ps, _ := ParsedHasPieces(tmpl);
    PiecesShape(ps);
  }

  lemma ShapeIsCompilable(segments: seq<Segment>)
    requires Shape(segments)
    ensures Flat(segments) && Named(segments) && Bodied(segments)
  {
    forall s <- segments | s.Variable?
      ensures AtomsOnly(s.segments) && s.path != "" && Named(s.segments)
    {
      assert SegmentOk(s) && forall a <- s.segments :: AtomOk(a);
      var names := Split(s.path, '.');
      assert Ident(names[0]);
    }
  }

  /** The whole pipeline, from template string to match. For every string that `Parse` accepts, NewPattern
      accepts the compilation exactly when `**` occurs at most once, and then Match on any components and verb
      succeeds exactly when the request has a reading as the parsed template, with the bindings of it. */
  lemma PipelineCorrect(tmpl: string, verb: string, assumeColonVerb: bool, comps: seq<string>, requested: string)
    requires ParseTemplate(tmpl).Ok?
    ensures var t := ParseTemplate(tmpl).value;
      && (PatternOf(t, verb, assumeColonVerb).Some? <==> Deeps(Atoms(t.segments)) <= 1)
      && (PatternOf(t, verb, assumeColonVerb).Some? ==>
            var result := MatchResult(PatternOf(t, verb, assumeColonVerb).value, comps, requested);
            && (result.Some?
                <==> exists spans :: RequestReading(t.segments, verb, assumeColonVerb, comps, requested, spans))
            && forall spans | RequestReading(t.segments, verb, assumeColonVerb, comps, requested, spans) ::
                 result.Some? && LastOfEach(Bindings(t.segments, spans), result.value))
  {
    var t := ParseTemplate(tmpl).value;
    ParsedShape(tmpl);
    ShapeIsCompilable(t.segments);
    FlatAcceptance(t, verb, assumeColonVerb);
    if Acceptable(t.segments) {
      CompilerCorrect(t, verb, assumeColonVerb, comps, requested);
    }
  }
}
