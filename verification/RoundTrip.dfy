/** Printing a template and parsing the text again.

    A template that the parser makes of text without NUL comes back segment by segment, unless it has no verb
    and its last literal has a colon; then its text reads as a template with a verb. */
module RoundTrip {
  import opened Grammar
  import opened Language
  import opened Parse
  import opened Text
  import opened Tokeniser
  import opened Types
  import opened Wrappers

  /** The piece that `String` writes for a segment. */
  function Spelling(s: Segment): Piece
  {
    match s
    case Wildcard => Star(false)
    case DeepWildcard => Deep
    case Literal(text) => Lit(text)
    case Variable(path, segments) => Long(Split(path, '.'), SpellingAll(segments))
  }

  function SpellingAll(segments: seq<Segment>): (r: seq<Piece>)
    ensures |r| == |segments|
  {
    if segments == [] then [] else [Spelling(segments[0])] + SpellingAll(segments[1..])
  }

  lemma {:induction false} SpellingInner(atoms: seq<Segment>)
    requires forall a <- atoms :: AtomOk(a)
    ensures forall p <- SpellingAll(atoms) :: PieceOk(p, true)
    ensures MeantAll(SpellingAll(atoms)) == atoms
  {
    if atoms != [] {
      assert AtomOk(atoms[0]);
      SpellingInner(atoms[1..]);
      assert SpellingAll(atoms)[1..] == SpellingAll(atoms[1..]);
      assert [atoms[0]] + atoms[1..] == atoms;
    }
  }

  lemma SpellingOne(s: Segment)
    requires SegmentOk(s)
    ensures PieceOk(Spelling(s), false) && Meant(Spelling(s)) == s
  {
    if s.Variable? {
      SpellingInner(s.segments);
      JoinSplit(s.path, '.');
    }
  }

  lemma {:induction false} SpellingSound(segments: seq<Segment>)
    requires Shape(segments)
    ensures PiecesOk(SpellingAll(segments), false) && MeantAll(SpellingAll(segments)) == segments
  {
    assert SegmentOk(segments[0]);
    SpellingOne(segments[0]);
    assert SpellingAll(segments)[1..] == SpellingAll(segments[1..]);
    assert [segments[0]] + segments[1..] == segments;
    if |segments| > 1 {
      SpellingSound(segments[1..]);
    }
  }

  // ----- The printed text is what the pieces write -----

  lemma {:induction false} NamesWrite(names: seq<string>)
    requires names != []
    ensures Concat(NameTokens(names)) == Join(names, ".")
  {
    if |names| == 1 {
      ConcatOne(names[0]);
    } else {
      NamesWrite(names[1..]);
      ConcatAppend([names[0]], ["."] + NameTokens(names[1..]));
      ConcatOne(names[0]);
      assert (["."] + NameTokens(names[1..]))[1..] == NameTokens(names[1..]);
      assert NameTokens(names) == [names[0]] + (["."] + NameTokens(names[1..]));
    }
  }

  lemma LongWrites(names: seq<string>, body: seq<Piece>)
    requires names != []
    ensures Concat(Written(Long(names, body))) == "{" + Join(names, ".") + "=" + Concat(WrittenAll(body)) + "}"
  {
    var ns, b := NameTokens(names), WrittenAll(body);
    assert Written(Long(names, body)) == ["{"] + ns + ["="] + b + ["}"];
    ConcatAppend(["{"] + ns + ["="] + b, ["}"]);
    ConcatAppend(["{"] + ns + ["="], b);
    ConcatAppend(["{"] + ns, ["="]);
    ConcatAppend(["{"], ns);
    ConcatOne("{");
    ConcatOne("=");
    ConcatOne("}");
    NamesWrite(names);
  }

  lemma {:induction false} PrintWrites(s: Segment)
    ensures Concat(Written(Spelling(s))) == Print(s)
    decreases s, 0
  {
    match s
    case Variable(path, segments) =>
      PrintAllWrites(segments);
      LongWrites(Split(path, '.'), SpellingAll(segments));
      JoinSplit(path, '.');
    case Wildcard => ConcatOne("*");
    case DeepWildcard => ConcatOne("**");
    case Literal(text) => ConcatOne(text);
  }

  lemma {:induction false} PrintAllWrites(segments: seq<Segment>)
    ensures Concat(WrittenAll(SpellingAll(segments))) == Join(PrintAll(segments), "/")
    decreases segments, 1
  {
    if segments != [] {
      PrintWrites(segments[0]);
      PrintAllWrites(segments[1..]);
      WrittenStep(Spelling(segments[0]), SpellingAll(segments[1..]));
      assert SpellingAll(segments) == [Spelling(segments[0])] + SpellingAll(segments[1..]);
      assert PrintAll(segments)[1..] == PrintAll(segments[1..]);
    }
  }

  lemma WrittenStep(p: Piece, rest: seq<Piece>)
    ensures Concat(WrittenAll([p] + rest))
         == if rest == [] then Concat(Written(p)) else Concat(Written(p)) + "/" + Concat(WrittenAll(rest))
  {
    if rest == [] {
      assert [p] + rest == [p];
    } else {
      assert ([p] + rest)[1..] == rest;
      ConcatAppend(Written(p), ["/"] + WrittenAll(rest));
      ConcatAppend(["/"], WrittenAll(rest));
      ConcatOne("/");
    }
  }

  lemma PrintIsSpelling(t: Template)
    requires Shape(t.segments) && VerbOk(t.verb) && !(t.verb == "" && ColonLast(t.segments))
    ensures Spells(PrintTemplate(t), SpellingAll(t.segments), t.verb)
  {
    SpellingSound(t.segments);
    PrintAllWrites(t.segments);
    var text := Join(PrintAll(t.segments), "/");
    assert "/" + (text + ":" + t.verb) == "/" + text + ":" + t.verb;
  }

  // ----- The one way in which it goes wrong -----

  /** In legitimate tokens, what precedes a text is a delimiter. */
  lemma {:induction false} BeforeText(ts: seq<string>, mode: Mode)
    requires Legit(ts, mode) && |ts| > 1 && ':' in ts[|ts| - 1]
    ensures ':' !in ts[|ts| - 2]
    decreases |ts|
  {
    if IsDelim(ts[0], mode) {
      DelimHasNoColon(ts[0], mode);
      if |ts| > 2 {
        BeforeText(ts[1..], Next(mode, ts[0][0]));
      }
    } else {
      DelimHasNoColon(ts[1], mode);
      BeforeText(ts[1..], mode);
    }
  }

  lemma {:induction false} NoNul(ts: seq<string>)
    requires forall t <- ts :: '\0' !in t
    ensures '\0' !in Concat(ts)
  {
    if ts != [] {
      NoNul(ts[1..]);
    }
  }

  lemma {:induction false} NamesHaveNoNul(names: seq<string>)
    requires forall n <- names :: Ident(n)
    ensures forall t <- NameTokens(names) :: '\0' !in t
  {
    if names != [] {
      assert Ident(names[0]);
      NamesHaveNoNul(names[1..]);
    }
  }

  lemma {:induction false} PieceHasNoNul(p: Piece, inner: bool)
    requires PieceOk(p, inner)
    ensures forall t <- Written(p) :: '\0' !in t
    decreases p, 0
  {
    match p
    case Lit(text) => PCharsAreText(text, Init);
    case Short(names) => NamesHaveNoNul(names);
    case Long(names, body) =>
      NamesHaveNoNul(names);
      PiecesHaveNoNul(body, true);
    case _ =>
  }

  lemma {:induction false} PiecesHaveNoNul(ps: seq<Piece>, inner: bool)
    requires PiecesOk(ps, inner)
    ensures forall t <- WrittenAll(ps) :: '\0' !in t
    decreases ps, 1
  {
    PieceHasNoNul(ps[0], inner);
    if |ps| > 1 {
      PiecesHaveNoNul(ps[1..], inner);
    }
  }

  /** A final literal with a colon, printed without a verb, does not come back: part of it becomes one. */
  lemma ColonIsTakenForVerb(t: Template)
    requires Shape(t.segments) && t.verb == "" && ColonLast(t.segments)
    ensures ParseTemplate(PrintTemplate(t)).Err?
         || ParseTemplate(PrintTemplate(t)).value.segments != t.segments
  {
    var tmpl := PrintTemplate(t);
    if ParseTemplate(tmpl).Ok? {
      var canon, verb := SpellingAll(t.segments), ParseTemplate(tmpl).value.verb;
      SpellingSound(t.segments);
      PrintAllWrites(t.segments);
      PiecesHaveNoNul(canon, false);
      NoNul(WrittenAll(canon));
      ParsedIsSpelled(tmpl);
      var ps, ignored :| SpellsWith(tmpl, ps, ignored, verb) && MeantAll(ps) == ParseTemplate(tmpl).value.segments;
      NothingIgnored(tmpl, ps, ignored, verb);
      if tmpl == "/" + Concat(WrittenAll(ps)) + ":" + verb {
        SlashAndVerb(Concat(WrittenAll(ps)), verb);
        AfterSlash(Concat(WrittenAll(ps)) + (":" + verb));
        AfterSlash(Concat(WrittenAll(canon)));
        ColonDoesNotStay(canon, ps, verb);
      }
    }
  }

  /** Splitting off a verb never leaves the same last token. */
  lemma ColonDoesNotStay(canon: seq<Piece>, ps: seq<Piece>, verb: string)
    requires PiecesOk(canon, false) && PiecesOk(ps, false) && VerbOk(verb) && ColonLast(MeantAll(canon))
    requires Concat(WrittenAll(canon)) == Concat(WrittenAll(ps)) + (":" + verb)
    ensures MeantAll(ps) != MeantAll(canon)
  {
    var ts := WrittenAll(canon);
    WrittenAreLegit(canon);
    WrittenAreLegit(ps);
    LegitScans(ts, Init);
    CutWithVerb(WrittenAll(ps), verb);
    assert Strip(ts).0 + [EOF] == WrittenAll(ps) + [EOF];
    ButLast(Strip(ts).0, [EOF], WrittenAll(ps), EOF);
    assert [EOF][..0] == [] && Strip(ts).0 + [] == Strip(ts).0;
    LastToken(canon);
    LastToken(ps);
    MeantLast(ps);
    MeantLast(canon);
    LastColonIsLost(ts);
  }

  lemma LastColonIsLost(ts: seq<string>)
    requires ts != [] && Legit(ts, Init) && ':' in ts[|ts| - 1] && Strip(ts).0 != []
    ensures Strip(ts).0[|Strip(ts).0| - 1] != ts[|ts| - 1]
  {
    if LastIndex(ts[|ts| - 1], ':') == 0 {
      BeforeText(ts, Init);
    }
  }

  lemma PrintedText(t: Template)
    requires Shape(t.segments) && t.verb != ""
    ensures PrintTemplate(t) == "/" + (Concat(WrittenAll(SpellingAll(t.segments))) + (":" + t.verb))
  {
    PrintAllWrites(t.segments);
    PlusAssociates(Join(PrintAll(t.segments), "/"), ":", t.verb);
  }

  /** Legitimate tokens are determined by their text. */
  lemma SameTokens(a: seq<string>, b: seq<string>)
    requires Legit(a, Init) && Legit(b, Init) && Concat(a) == Concat(b)
    ensures a == b
  {
    LegitScans(a, Init);
    LegitScans(b, Init);
  }

  /** A verb that could not be split off does not come back either. */
  lemma BadVerbIsLost(t: Template)
    requires Shape(t.segments) && !VerbOk(t.verb)
    ensures ParseTemplate(PrintTemplate(t)) != Ok(Template(t.verb, PrintTemplate(t), t.segments))
  {
    var tmpl := PrintTemplate(t);
    if ParseTemplate(tmpl) == Ok(Template(t.verb, tmpl, t.segments)) {
      var canon := SpellingAll(t.segments);
      ParsedIsSpelled(tmpl);
      var ps, ignored :| SpellsWith(tmpl, ps, ignored, t.verb);
      SpellingSound(t.segments);
      PrintedText(t);
      VerbOfSpelling(tmpl, ps, ignored, canon, t.verb);
    }
  }

  /** If the same text is spelled with a verb that the plain pieces `canon` write too, it is one that can be
      split off. */
  lemma VerbOfSpelling(tmpl: string, ps: seq<Piece>, ignored: seq<string>, canon: seq<Piece>, verb: string)
    requires SpellsWith(tmpl, ps, ignored, verb) && verb != "" && PiecesOk(canon, false)
    requires tmpl == "/" + (Concat(WrittenAll(canon)) + (":" + verb))
    ensures VerbOk(verb)
  {
    var ts := WrittenAll(ps) + ignored;
    SlashAndVerb(Concat(ts), verb);
    SameText(Concat(ts), Concat(WrittenAll(canon)), ":" + verb);
    WrittenAreLegit(canon);
    SameTokens(ts, WrittenAll(canon));
    assert Delims(Init) == {'/', '{'};
  }

  lemma SameText(a: string, b: string, tail: string)
    requires "/" + (a + tail) == "/" + (b + tail)
    ensures a == b
  {
    assert |a| == |b|;
    assert a == ("/" + (a + tail))[1..|a| + 1] && b == ("/" + (b + tail))[1..|b| + 1];
  }

  /** Print then parse. A template of the parser's shape comes back exactly if its verb has no `/`, `{` or `:`,
      and it is not the case that it has no verb and its last segment is a literal with a colon. */
  lemma PrintThenParse(t: Template)
    requires Shape(t.segments)
    ensures ParseTemplate(PrintTemplate(t)) == Ok(Template(t.verb, PrintTemplate(t), t.segments))
       <==> VerbOk(t.verb) && !(t.verb == "" && ColonLast(t.segments))
  {
    if !VerbOk(t.verb) {
      BadVerbIsLost(t);
    } else if t.verb == "" && ColonLast(t.segments) {
      ColonIsTakenForVerb(t);
    } else {
      PrintIsSpelling(t);
      SpellingIsParsed(PrintTemplate(t), SpellingAll(t.segments), t.verb);
      SpellingSound(t.segments);
    }
  }

  /** Parse, print, parse: printing is a normal form for what `Parse` accepts, under the same condition. The
      verb of a string without NUL always meets it. */
  lemma ParseThenPrint(tmpl: string)
    requires ParseTemplate(tmpl).Ok?
    ensures var t := ParseTemplate(tmpl).value;
      && (ParseTemplate(PrintTemplate(t)) == Ok(Template(t.verb, PrintTemplate(t), t.segments))
          <==> VerbOk(t.verb) && !(t.verb == "" && ColonLast(t.segments)))
      && ('\0' !in tmpl ==> VerbOk(t.verb))
  {
    var t := ParseTemplate(tmpl).value;
    ParsedShape(tmpl);
    PrintThenParse(t);
    if '\0' !in tmpl {
      ParsedIsSpelled(tmpl);
      var ps, ignored :| SpellsWith(tmpl, ps, ignored, t.verb);
      NothingIgnored(tmpl, ps, ignored, t.verb);
    }
  }

  /** The exception is reachable: for every literal with a colon, such as `a:b`, the string `/a:b:` parses
      as that literal without a verb, and prints as `/a:b`, which does not parse to it again. */
  lemma ColonFamily(text: string)
    requires LiteralOk(text) && ':' in text
    ensures var t := Template("", "/" + text + ":", [Literal(text)]);
      && ParseTemplate(t.template) == Ok(t)
      && PrintTemplate(t) == "/" + text
      && ParseTemplate(PrintTemplate(t)) != Ok(t.(template := PrintTemplate(t)))
  {
    var t := Template("", "/" + text + ":", [Literal(text)]);
    LiteralWithVerb(text, "");
    assert t.template == "/" + text + ":" + "";
    assert PrintAll(t.segments) == [text] + [];
    assert SegmentOk(t.segments[0]);
    PrintThenParse(t);
  }

  lemma LiteralWithVerb(text: string, verb: string)
    requires LiteralOk(text) && VerbOk(verb)
    ensures var tmpl := "/" + text + ":" + verb; ParseTemplate(tmpl) == Ok(Template(verb, tmpl, [Literal(text)]))
  {
    var tmpl := "/" + text + ":" + verb;
    ConcatOne(text);
    var ps := [Lit(text)];
    assert WrittenAll(ps) == [text] && PieceOk(ps[0], false);
    assert ps[1..] == [] && MeantAll(ps) == [Literal(text)] + [] == [Literal(text)];
    assert Spells(tmpl, ps, verb);
    SpellingIsParsed(tmpl, ps, verb);
  }
}
