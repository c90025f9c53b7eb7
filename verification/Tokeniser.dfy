/** Cutting text into tokens and writing tokens one after the other are inverse to each other.

    Cut tokens are well placed for the mode that the tokeniser is in, well placed tokens are cut back as they
    were, and the verb is split off exactly at a colon in the last token. */
module Tokeniser {
  import opened Grammar
  import opened Parse
  import opened Text

  /** Tokens that the tokeniser can cut in `mode`: after a text comes a delimiter of its mode, or nothing. */
  predicate Legit(ts: seq<string>, mode: Mode)
    decreases |ts|
  {
    if ts == [] then true else
    if IsDelim(ts[0], mode) then Legit(ts[1..], Next(mode, ts[0][0])) else
    IsText(ts[0], mode) && (|ts| == 1 || (IsDelim(ts[1], mode) && Legit(ts[1..], mode)))
  }

  /** The mode after the tokens. */
  function FinalMode(ts: seq<string>, mode: Mode): Mode
    decreases |ts|
  {
    if ts == [] then mode else
    FinalMode(ts[1..], if IsDelim(ts[0], mode) then Next(mode, ts[0][0]) else mode)
  }

  lemma {:induction false} ScanIsLegit(path: string, mode: Mode)
    ensures Legit(Scan(path, mode), mode)
    decreases |path|
  {
    if path != "" {
      var idx := IndexAny(path, Delims(mode));
      if 0 <= idx {
        var d, rest := path[idx..idx + 1], Scan(path[idx + 1..], Next(mode, path[idx]));
        ScanIsLegit(path[idx + 1..], Next(mode, path[idx]));
        var tail := [d] + rest;
        assert IsDelim(d, mode) && tail[1..] == rest && Legit(tail, mode);
        if idx > 0 {
          assert Scan(path, mode) == [path[..idx]] + tail;
          assert path[..idx][0] !in Delims(mode);
        } else {
          assert Scan(path, mode) == tail;
        }
      } else {
        assert path[0] !in Delims(mode);
      }
    }
  }

  /** The tokeniser is lossless. */
  lemma {:induction false} ScanIsLossless(path: string, mode: Mode)
    ensures Concat(Scan(path, mode)) == path
    decreases |path|
  {
    if path != "" {
      var idx := IndexAny(path, Delims(mode));
      if idx < 0 {
        ConcatOne(path);
      } else {
        var d, rest := path[idx..idx + 1], path[idx + 1..];
        ScanIsLossless(rest, Next(mode, path[idx]));
        ConcatCut(path[..idx], d, Scan(rest, Next(mode, path[idx])));
        CutApart(path, idx);
      }
    }
  }

  lemma CutApart(s: string, i: nat)
    requires i < |s|
    ensures s == s[..i] + (s[i..i + 1] + s[i + 1..])
  {
  }

  lemma ConcatCut(text: string, d: string, rest: seq<string>)
    ensures Concat((if text == "" then [] else [text]) + ([d] + rest)) == text + (d + Concat(rest))
  {
    ConcatAppend([d], rest);
    ConcatOne(d);
    ConcatAppend([text], [d] + rest);
    ConcatOne(text);
    assert [] + ([d] + rest) == [d] + rest;
    assert "" + (d + Concat(rest)) == d + Concat(rest);
  }

  lemma ConcatOne(s: string)
    ensures Concat([s]) == s
  {
    assert Concat([s]) == s + Concat([]) && s + "" == s;
  }

  /** What is cut when the first delimiter comes after `text`. */
  lemma ScanAt(text: string, d: string, rest: string, mode: Mode)
    requires (forall r <- text :: r !in Delims(mode)) && IsDelim(d, mode)
    ensures Scan(text + (d + rest), mode)
         == (if text == "" then [] else [text]) + ([d] + Scan(rest, Next(mode, d[0])))
  {
    var path := text + (d + rest);
    IndexAnyAfter(text, d + rest, Delims(mode));
    assert path[..|text|] == text;
    assert path[|text|..] == d + rest;
    assert path[|text|..|text| + 1] == (d + rest)[..1] == d;
    assert path[|text| + 1..] == (d + rest)[1..] == rest;
  }

  lemma ScanDelim(d: string, rest: string, mode: Mode)
    requires IsDelim(d, mode)
    ensures Scan(d + rest, mode) == [d] + Scan(rest, Next(mode, d[0]))
  {
    ScanAt("", d, rest, mode);
    assert "" + (d + rest) == d + rest;
  }

  lemma ScanTextDelim(text: string, d: string, rest: string, mode: Mode)
    requires IsText(text, mode) && IsDelim(d, mode)
    ensures Scan(text + (d + rest), mode) == [text] + Scan(d + rest, mode)
  {
    ScanAt(text, d, rest, mode);
    ScanDelim(d, rest, mode);
  }

  /** Cutting what legitimate tokens write gives the tokens back. */
  lemma {:induction false} LegitScans(ts: seq<string>, mode: Mode)
    requires Legit(ts, mode)
    ensures Scan(Concat(ts), mode) == ts
    decreases |ts|
  {
    if ts != [] {
      assert ts == [ts[0]] + ts[1..];
      if IsDelim(ts[0], mode) {
        LegitScans(ts[1..], Next(mode, ts[0][0]));
        ScanDelim(ts[0], Concat(ts[1..]), mode);
      } else if |ts| == 1 {
        ConcatOne(ts[0]);
      } else {
        LegitScans(ts[1..], mode);
        TextScans(ts, mode);
      }
    }
  }

  lemma TextScans(ts: seq<string>, mode: Mode)
    requires |ts| > 1 && IsText(ts[0], mode) && IsDelim(ts[1], mode)
    ensures Scan(Concat(ts), mode) == [ts[0]] + Scan(Concat(ts[1..]), mode)
  {
    assert ts[1..][1..] == ts[2..];
    assert Concat(ts[1..]) == ts[1] + Concat(ts[2..]);
    ScanTextDelim(ts[0], ts[1], Concat(ts[2..]), mode);
  }

  // ----- Splitting off the verb -----

  lemma StripCons(ts: seq<string>)
    requires |ts| > 1
    ensures var (ts', verb) := Strip(ts[1..]); Strip(ts) == ([ts[0]] + ts', verb)
  {
    var rest := ts[1..];
    var l, t := |ts|, ts[|ts| - 1];
    assert rest[|rest| - 1] == t;
    assert ts[..l - 1] == [ts[0]] + rest[..l - 2];
    assert ts == [ts[0]] + rest;
    var idx := LastIndex(t, ':');
    if idx > 0 {
      assert [ts[0]] + rest[..l - 2] + [t[..idx]] == [ts[0]] + (rest[..l - 2] + [t[..idx]]);
    }
  }

  lemma DelimHasNoColon(d: string, mode: Mode)
    requires IsDelim(d, mode)
    ensures LastIndex(d, ':') == -1
  {
  }

  /** What the parser is given is tagged, whatever was split off. */
  lemma {:induction false} StripIsTagged(ts: seq<string>, mode: Mode)
    requires ts != [] && Legit(ts, mode)
    ensures Tagged(Strip(ts).0 + [EOF], mode)
    ensures |ts| > 1 ==> Strip(ts).0 != [] && Strip(ts).0[0] == ts[0]
    ensures IsDelim(ts[0], mode) ==> Strip(ts).0 != [] && Strip(ts).0[0] == ts[0]
    decreases |ts|
  {
    var all := Strip(ts).0 + [EOF];
    if |ts| == 1 {
      if IsDelim(ts[0], mode) {
        DelimHasNoColon(ts[0], mode);
        assert all[1..] == [EOF];
      } else {
        var idx := LastIndex(ts[0], ':');
        if idx == 0 {
          assert all == [EOF];
        } else {
          assert all[1..] == [EOF] && IsText(all[0], mode);
        }
      }
    } else {
      StripCons(ts);
      var rest := Strip(ts[1..]).0 + [EOF];
      assert all == [ts[0]] + rest && all[1..] == rest;
      if IsDelim(ts[0], mode) {
        StripIsTagged(ts[1..], Next(mode, ts[0][0]));
      } else {
        StripIsTagged(ts[1..], mode);
        assert rest[0] == ts[1];
      }
    }
  }

  /** And it is legitimate. */
  lemma {:induction false} StripIsLegit(ts: seq<string>, mode: Mode)
    requires ts != [] && Legit(ts, mode)
    ensures Legit(Strip(ts).0, mode)
    decreases |ts|
  {
    if |ts| == 1 {
      StripOneIsLegit(ts[0], mode);
      assert ts == [ts[0]];
    } else {
      var rest := Strip(ts[1..]).0;
      StripCons(ts);
      assert Strip(ts).0 == [ts[0]] + rest && ([ts[0]] + rest)[1..] == rest;
      if IsDelim(ts[0], mode) {
        StripIsLegit(ts[1..], Next(mode, ts[0][0]));
      } else {
        StripIsLegit(ts[1..], mode);
        StripIsTagged(ts[1..], mode);
      }
    }
  }

  lemma StripOneIsLegit(t: string, mode: Mode)
    requires IsDelim(t, mode) || IsText(t, mode)
    ensures Legit(Strip([t]).0, mode)
  {
    if ':' in t {
      ColonInText(t, mode);
      StripText(t);
      var idx := LastIndex(t, ':');
      if idx > 0 {
        assert IsText(t[..idx], mode) && [t[..idx]][1..] == [];
      }
    } else {
      StripNothing(t);
      assert [t][1..] == [];
    }
  }

  /** Splitting off a verb takes away a colon and the verb, which has no colon and no character that
      would have been cut. */
  ghost predicate TakesOff(ts: seq<string>, ts': seq<string>, verb: string, mode: Mode)
    requires ts != []
  {
    if ':' !in ts[|ts| - 1] then ts' == ts && verb == "" else
    Concat(ts) == Concat(ts') + (":" + verb) && ':' !in verb && forall r <- verb :: r !in Delims(FinalMode(ts', mode))
  }

  lemma TakesOffCons(ts: seq<string>, rest': seq<string>, verb: string, mode: Mode, mode': Mode)
    requires |ts| > 1 && TakesOff(ts[1..], rest', verb, mode')
    requires mode' == if IsDelim(ts[0], mode) then Next(mode, ts[0][0]) else mode
    ensures TakesOff(ts, [ts[0]] + rest', verb, mode)
  {
    var ts' := [ts[0]] + rest';
    assert ts'[1..] == rest' && ts == [ts[0]] + ts[1..];
    PlusAssociates(ts[0], Concat(rest'), ":" + verb);
  }

  lemma TakesOffText(t: string, mode: Mode)
    requires IsText(t, mode) && ':' in t
    ensures TakesOff([t], Strip([t]).0, Strip([t]).1, mode)
  {
    var idx := LastIndex(t, ':');
    var text := if idx > 0 then [t[..idx]] else [];
    StripText(t);
    ConcatOne(t);
    ConcatOne(t[..idx]);
    assert Concat(text) == t[..idx];
    assert FinalMode(text, mode) == mode by {
      if idx > 0 {
        assert IsText(text[0], mode) && text[1..] == [];
      }
    }
  }

  lemma StripText(t: string)
    requires ':' in t
    ensures var idx := LastIndex(t, ':');
      && idx >= 0
      && Strip([t]) == (if idx > 0 then [t[..idx]] else [], t[idx + 1..])
      && t == t[..idx] + (":" + t[idx + 1..])
  {
    var idx := LastIndex(t, ':');
    CutApart(t, idx);
    assert t[idx..idx + 1] == ":";
    assert [t][..0] == [] && [] + [t[..idx]] == [t[..idx]];
  }

  lemma {:induction false} StripWrites(ts: seq<string>, mode: Mode)
    requires ts != [] && Legit(ts, mode)
    ensures TakesOff(ts, Strip(ts).0, Strip(ts).1, mode)
    decreases |ts|
  {
    if |ts| > 1 {
      var mode' := if IsDelim(ts[0], mode) then Next(mode, ts[0][0]) else mode;
      var (rest', verb) := Strip(ts[1..]);
      StripWrites(ts[1..], mode');
      TakesOffCons(ts, rest', verb, mode, mode');
      StripCons(ts);
      assert Strip(ts) == ([ts[0]] + rest', verb);
    } else {
      assert ts == [ts[0]];
      if ':' in ts[0] {
        ColonInText(ts[0], mode);
        TakesOffText(ts[0], mode);
      } else {
        StripNothing(ts[0]);
      }
    }
  }

  lemma ColonInText(t: string, mode: Mode)
    requires ':' in t && (IsDelim(t, mode) || IsText(t, mode))
    ensures IsText(t, mode)
  {
    if IsDelim(t, mode) {
      assert false;
    }
  }

  lemma StripNothing(t: string)
    requires ':' !in t
    ensures Strip([t]) == ([t], "")
  {
  }

  /** The tokens before EOF, written one after the other, are the input without its verb part. */
  lemma TokenizeIsLossless(path: string)
    ensures var (ts, verb) := Tokens(path);
      && ts != [] && ts[|ts| - 1] == EOF
      && var text := Concat(ts[..|ts| - 1]);
         path == text + ":" + verb || (path == text && verb == "")
  {
    if path == "" {
      assert [EOF][..0] == [];
    } else {
      var ts := Scan(path, Init);
      ScanIsLegit(path, Init);
      ScanIsLossless(path, Init);
      StripWrites(ts, Init);
      var (ts', verb) := Strip(ts);
      assert (ts' + [EOF])[..|ts' + [EOF]| - 1] == ts';
      PlusAssociates(Concat(ts'), ":", verb);
    }
  }

  /** Writes `suffix` after the tokens: it extends a final text and is a token of its own otherwise. */
  function Extend(ts: seq<string>, mode: Mode, suffix: string): seq<string>
    decreases |ts|
  {
    if ts == [] then [suffix] else
    if IsDelim(ts[0], mode) then [ts[0]] + Extend(ts[1..], Next(mode, ts[0][0]), suffix) else
    if |ts| == 1 then [ts[0] + suffix] else [ts[0]] + Extend(ts[1..], mode, suffix)
  }

  /** `all` writes `ts` and then the verb, and splitting off the verb gives `ts` back. */
  ghost predicate Extends(all: seq<string>, ts: seq<string>, mode: Mode, verb: string)
  {
    all != [] && Legit(all, mode) && Concat(all) == Concat(ts) + (":" + verb) && Strip(all) == (ts, verb)
  }

  lemma ExtendNothing(mode: Mode, verb: string)
    requires ':' !in verb && forall r <- ":" + verb :: r !in Delims(mode)
    ensures Extends([":" + verb], [], mode, verb)
  {
    var suffix := ":" + verb;
    ConcatOne(suffix);
    assert suffix[0] in suffix;
    assert forall k :: 0 < k < |suffix| ==> suffix[k] == verb[k - 1];
    assert LastIndex(suffix, ':') == 0 && suffix[1..] == verb;
  }

  lemma ExtendText(text: string, mode: Mode, verb: string)
    requires ':' !in verb && forall r <- ":" + verb :: r !in Delims(mode)
    requires IsText(text, mode)
    ensures Extends([text + (":" + verb)], [text], mode, verb)
  {
    var t := text + (":" + verb);
    ConcatOne(t);
    ConcatOne(text);
    assert t[|text|] == ':';
    assert forall k :: |text| < k < |t| ==> t[k] == verb[k - |text| - 1];
    assert LastIndex(t, ':') == |text| && t[..|text|] == text && t[|text| + 1..] == verb;
    assert t[0] in text;
    assert IsText(t, mode);
    assert [t][..0] + [text] == [text];
  }

  lemma {:induction false} ExtendStrips(ts: seq<string>, mode: Mode, verb: string)
    requires Legit(ts, mode) && ':' !in verb
    requires forall r <- ":" + verb :: r !in Delims(FinalMode(ts, mode))
    ensures var all := Extend(ts, mode, ":" + verb);
      && Extends(all, ts, mode, verb)
      && (ts != [] && (|ts| > 1 || IsDelim(ts[0], mode)) ==> all[0] == ts[0])
    decreases |ts|
  {
    var suffix := ":" + verb;
    if ts == [] {
      ExtendNothing(mode, verb);
    } else if !IsDelim(ts[0], mode) && |ts| == 1 {
      assert ts[1..] == [] && ts == [ts[0]] && FinalMode(ts, mode) == mode;
      ExtendText(ts[0], mode, verb);
    } else {
      var mode' := if IsDelim(ts[0], mode) then Next(mode, ts[0][0]) else mode;
      ExtendStrips(ts[1..], mode', verb);
      ExtendCons(ts, Extend(ts[1..], mode', suffix), mode, mode', verb);
    }
  }

  lemma ExtendCons(ts: seq<string>, rest: seq<string>, mode: Mode, mode': Mode, verb: string)
    requires ts != [] && Extends(rest, ts[1..], mode', verb)
    requires if IsDelim(ts[0], mode) then mode' == Next(mode, ts[0][0])
             else mode' == mode && IsText(ts[0], mode) && IsDelim(rest[0], mode)
    ensures Extends([ts[0]] + rest, ts, mode, verb)
  {
    var all := [ts[0]] + rest;
    assert all[1..] == rest;
    StripCons(all);
    assert [ts[0]] + ts[1..] == ts;
    PlusAssociates(ts[0], Concat(ts[1..]), ":" + verb);
  }

  // ----- The tokens of the grammar are legitimate -----

  predicate DelimNext(tail: seq<string>, mode: Mode)
  {
    Legit(tail, mode) && (tail == [] || IsDelim(tail[0], mode))
  }

  lemma {:induction false} PCharsAreText(text: string, mode: Mode)
    requires text != "" && PChars(text) && mode != Field
    ensures IsText(text, mode)
    ensures '\0' !in text
    decreases |text|
  {
    if IsPlain(text[0]) {
      assert text == [text[0]] + text[1..];
      if text[1..] != "" {
        PCharsAreText(text[1..], mode);
      }
    } else {
      assert text == text[..3] + text[3..];
      assert forall r <- text[..3] :: r == '%' || IsHexDigit(r);
      if text[3..] != "" {
        PCharsAreText(text[3..], mode);
      }
    }
  }

  lemma TextThen(t: string, tail: seq<string>, mode: Mode)
    requires IsText(t, mode) && DelimNext(tail, mode)
    ensures Legit([t] + tail, mode) && FinalMode([t] + tail, mode) == FinalMode(tail, mode)
  {
    assert ([t] + tail)[1..] == tail;
    if IsDelim(t, mode) {
      TextIsNotDelim(t, mode);
    }
  }

  lemma DelimThen(d: string, tail: seq<string>, mode: Mode)
    requires IsDelim(d, mode) && Legit(tail, Next(mode, d[0]))
    ensures DelimNext([d] + tail, mode) && FinalMode([d] + tail, mode) == FinalMode(tail, Next(mode, d[0]))
  {
    assert ([d] + tail)[1..] == tail;
  }

  lemma {:induction false} NamesAreLegit(names: seq<string>, tail: seq<string>)
    requires NamesOk(names) && DelimNext(tail, Field)
    ensures Legit(NameTokens(names) + tail, Field)
    ensures FinalMode(NameTokens(names) + tail, Field) == FinalMode(tail, Field)
    decreases |names|
  {
    var n := names[0];
    assert Ident(n) && IsText(n, Field);
    if |names| == 1 {
      TextThen(n, tail, Field);
    } else {
      var rest := NameTokens(names[1..]) + tail;
      NamesAreLegit(names[1..], tail);
      DelimThen(".", rest, Field);
      TextThen(n, ["."] + rest, Field);
      NamesTokens(names, tail);
    }
  }

  lemma {:induction false} PieceIsLegit(p: Piece, mode: Mode, tail: seq<string>)
    requires mode != Field && PieceOk(p, mode == Nested) && DelimNext(tail, mode)
    ensures Legit(Written(p) + tail, mode)
    ensures FinalMode(Written(p) + tail, mode) == FinalMode(tail, mode)
    decreases p, 0
  {
    match p
    case Star(slash) =>
      if slash { DelimThen("/", tail, mode); } else { TextThen("*", tail, mode); }
    case Deep => TextThen("**", tail, mode);
    case Lit(text) =>
      PCharsAreText(text, mode);
      TextThen(text, tail, mode);
    case Short(names) => ShortIsLegit(names, tail);
    case Long(names, body) =>
      DelimThen("}", tail, Nested);
      PiecesAreLegit(body, Nested, ["}"] + tail);
      LongIsLegit(names, body, tail);
  }

  lemma ShortIsLegit(names: seq<string>, tail: seq<string>)
    requires NamesOk(names) && DelimNext(tail, Init)
    ensures Legit(Written(Short(names)) + tail, Init)
    ensures FinalMode(Written(Short(names)) + tail, Init) == FinalMode(tail, Init)
  {
    var close := ["}"] + tail;
    DelimThen("}", tail, Field);
    NamesAreLegit(names, close);
    DelimThen("{", NameTokens(names) + close, Init);
    ShortTokens(names, tail);
  }

  lemma LongIsLegit(names: seq<string>, body: seq<Piece>, tail: seq<string>)
    requires NamesOk(names)
    requires Legit(WrittenAll(body) + (["}"] + tail), Nested)
    requires FinalMode(WrittenAll(body) + (["}"] + tail), Nested) == FinalMode(tail, Init)
    ensures Legit(Written(Long(names, body)) + tail, Init)
    ensures FinalMode(Written(Long(names, body)) + tail, Init) == FinalMode(tail, Init)
  {
    var rest := WrittenAll(body) + (["}"] + tail);
    var after := ["="] + rest;
    DelimThen("=", rest, Field);
    NamesAreLegit(names, after);
    DelimThen("{", NameTokens(names) + after, Init);
    LongTokens(names, body, tail);
  }

  lemma PiecesTokens(ps: seq<Piece>, tail: seq<string>)
    requires |ps| > 1
    ensures WrittenAll(ps) + tail == Written(ps[0]) + (["/"] + (WrittenAll(ps[1..]) + tail))
  {
  }

  lemma {:induction false} PiecesAreLegit(ps: seq<Piece>, mode: Mode, tail: seq<string>)
    requires mode != Field && PiecesOk(ps, mode == Nested) && DelimNext(tail, mode)
    ensures Legit(WrittenAll(ps) + tail, mode)
    ensures FinalMode(WrittenAll(ps) + tail, mode) == FinalMode(tail, mode)
    decreases ps, 1
  {
    assert PieceOk(ps[0], mode == Nested);
    if |ps| == 1 {
      PieceIsLegit(ps[0], mode, tail);
    } else {
      var rest := WrittenAll(ps[1..]) + tail;
      PiecesAreLegit(ps[1..], mode, tail);
      DelimThen("/", rest, mode);
      PieceIsLegit(ps[0], mode, ["/"] + rest);
      PiecesTokens(ps, tail);
    }
  }
}
