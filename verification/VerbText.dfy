/** What becomes of a template's verb in the router. */
module VerbText {
  import opened CompilerTheorem
  import opened Expand
  import opened Language
  import opened Meaning
  import opened Parse
  import opened StaticRouter
  import opened Text
  import opened Types

  // The router builds every pattern without a verb. A request that writes the verb is served exactly if the verb
  // can be text of the last component.

  /** Span `k` holds the last component. */
  predicate TakesLast(spans: Spans, k: int)
  {
    0 <= k < |spans| && spans[k] != [] && forall j :: k < j < |spans| ==> spans[j] == []
  }

  lemma {:induction false} SomeTakesLast(spans: Spans) returns (k: nat)
    requires Flatten(spans) != []
    ensures TakesLast(spans, k)
  {
    if Flatten(spans[1..]) == [] {
      k := 0;
      EmptySpans(spans[1..]);
      assert forall j :: 0 < j < |spans| ==> spans[j] == spans[1..][j - 1];
    } else {
      k := SomeTakesLast(spans[1..]);
      assert forall j :: 0 < j < |spans| ==> spans[j] == spans[1..][j - 1];
      k := k + 1;
    }
  }

  lemma {:induction false} EmptySpans(spans: Spans)
    ensures Flatten(spans) == [] <==> forall j :: 0 <= j < |spans| ==> spans[j] == []
  {
    if spans != [] {
      EmptySpans(spans[1..]);
      assert forall j :: 0 < j < |spans| ==> spans[j] == spans[1..][j - 1];
    }
  }

  lemma FoldedBehind(a: seq<string>, b: seq<string>, verb: string)
    requires b != []
    ensures Folded(a + b, verb) == a + Folded(b, verb) && (a + b)[|a + b| - 1] == b[|b| - 1]
  {
  }

  /** Folding a verb into all components is folding it into the span that holds the last one. */
  lemma {:induction false} FoldedSpans(spans: Spans, k: nat, verb: string)
    requires TakesLast(spans, k)
    ensures Flatten(spans) != [] && Flatten(spans)[|Flatten(spans)| - 1] == spans[k][|spans[k]| - 1]
    ensures Flatten(spans[k := Folded(spans[k], verb)]) == Folded(Flatten(spans), verb)
    decreases |spans|
  {
    var spans' := spans[k := Folded(spans[k], verb)];
    if k == 0 {
      EmptySpans(spans[1..]);
      assert spans'[1..] == spans[1..];
      assert spans[0] + [] == spans[0] && spans'[0] + [] == spans'[0];
    } else {
      FoldedSpans(spans[1..], k - 1, verb);
      assert spans'[1..] == spans[1..][k - 1 := Folded(spans[k], verb)];
      FoldedBehind(spans[0], Flatten(spans[1..]), verb);
    }
  }

  /** With at most one `**`, the number of components fixes how many each atom takes. */
  lemma {:induction false} SameLengths(atoms: seq<Segment>, a: Spans, b: Spans, i: nat)
    requires Deeps(atoms) <= 1 && SpansOk(atoms, a) && SpansOk(atoms, b) && |Flatten(a)| == |Flatten(b)|
    requires i < |atoms|
    ensures |a[i]| == |b[i]|
    decreases |atoms|
  {
    assert SpanOk(atoms[0], a[0]) && SpanOk(atoms[0], b[0]);
    assert SpansOk(atoms[1..], a[1..]) && SpansOk(atoms[1..], b[1..]);
    if atoms[0] == DeepWildcard {
      ShallowLength(atoms[1..], a[1..]);
      ShallowLength(atoms[1..], b[1..]);
      if i > 0 {
        SameLengths(atoms[1..], a[1..], b[1..], i - 1);
      }
    } else if i > 0 {
      SameLengths(atoms[1..], a[1..], b[1..], i - 1);
    }
  }

  /** A verb behind the components is read as text exactly if the last component is not a literal's. */
  lemma VerbIsTextExactlyWhen(segments: seq<Segment>, comps: seq<string>, verb: string, spans: Spans, k: nat)
    requires Deeps(Atoms(segments)) <= 1 && Reading(segments, comps, spans) && TakesLast(spans, k)
    ensures (exists spans' :: Reading(segments, Folded(comps, verb), spans')) <==> !Atoms(segments)[k].Literal?
  {
    var atoms := Atoms(segments);
    FoldedSpans(spans, k, verb);
    assert SpanOk(atoms[k], spans[k]);
    if !atoms[k].Literal? {
      assert Reading(segments, Folded(comps, verb), spans[k := Folded(spans[k], verb)]);
    }
    forall spans' | Reading(segments, Folded(comps, verb), spans')
      ensures !atoms[k].Literal?
    {
      forall j | 0 <= j < |atoms| ensures |spans'[j]| == |spans[j]| {
        SameLengths(atoms, spans', spans, j);
      }
      FoldedSpans(spans', k, verb);
      assert SpanOk(atoms[k], spans'[k]);
    }
  }

  lemma {:induction false} SplitBehind(s: string, c: char, tail: string)
    requires c !in tail
    ensures var parts := Split(s, c);
      Split(s + tail, c) == parts[..|parts| - 1] + [parts[|parts| - 1] + tail]
    decreases |s|
  {
    var i := IndexAny(s, {c});
    if i < 0 {
      assert IndexAny(s + tail, {c}) < 0;
    } else {
      var a, b := s[..i], s[i + 1..];
      assert s == a + [c] + b;
      PlusAssociates(a + [c], b, tail);
      SplitBehind(b, c, tail);
      SplitHead(a, c, b);
      SplitHead(a, c, b + tail);
      var parts := Split(b, c);
      assert ([a] + parts)[..|parts|] == [a] + parts[..|parts| - 1];
    }
  }

  /** The components of a path with a verb behind it. */
  lemma VerbComponents(path: string, verb: string)
    requires path != "" && path != "/" && '/' !in verb
    ensures PathComponents(path + (":" + verb)) == Folded(PathComponents(path), verb)
  {
    var tail := ":" + verb;
    assert '/' !in tail;
    assert (path + tail)[1..] == path[1..] + tail;
    SplitBehind(path[1..], '/', tail);
  }

  // ----- The root path and the empty path -----

  /** The empty path splits into one empty component and the root path into two; with a verb behind it each of
      them has one component, which without a leading slash is the verb without its colon. */
  lemma RootComponents(verb: string)
    requires '/' !in verb
    ensures PathComponents("") == [""] && PathComponents("/") == ["", ""]
    ensures PathComponents("" + (":" + verb)) == [verb] && PathComponents("/" + (":" + verb)) == [":" + verb]
  {
    var v := ":" + verb;
    assert '/' !in v;
    assert "" + v == v && v[1..] == verb && ("/" + v)[1..] == v;
    SplitHead([], '/', []);
    assert [] + ['/'] + [] == "/";
    assert [""] + [""] == ["", ""];
  }

  predicate NoBlankLiteral(atoms: seq<Segment>)
  {
    forall i :: 0 <= i < |atoms| ==> atoms[i] != Literal("")
  }

  predicate WildcardsOnly(atoms: seq<Segment>)
  {
    forall i :: 0 <= i < |atoms| ==> atoms[i] == Wildcard || atoms[i] == DeepWildcard
  }

  lemma {:induction false} AtomLiterals(segments: seq<Segment>)
    requires forall s <- segments :: SegmentOk(s)
    ensures NoBlankLiteral(Atoms(segments))
  {
    if segments != [] {
      AtomLiterals(segments[1..]);
      assert SegmentOk(segments[0]);
      forall i | 0 <= i < |AtomsOf(segments[0])| ensures AtomsOf(segments[0])[i] != Literal("") {
        assert AtomOk(AtomsOf(segments[0])[i]);
      }
    }
  }

  /** Empty components are read by no literal. */
  lemma {:induction false} BlankSpans(atoms: seq<Segment>, spans: Spans)
    requires SpansOk(atoms, spans) && (forall c <- Flatten(spans) :: c == "") && NoBlankLiteral(atoms)
    ensures WildcardsOnly(atoms)
  {
    if atoms != [] {
      assert SpanOk(atoms[0], spans[0]);
      assert forall c <- spans[0] :: c in Flatten(spans);
      assert forall c <- Flatten(spans[1..]) :: c in Flatten(spans);
      assert SpansOk(atoms[1..], spans[1..]);
      BlankSpans(atoms[1..], spans[1..]);
      assert forall i :: 0 < i < |atoms| ==> atoms[i] == atoms[1..][i - 1];
      assert atoms[0].Literal? ==> atoms[0].text in spans[0];
    }
  }

  /** Every atom but `**` takes a component. */
  lemma {:induction false} LengthBound(atoms: seq<Segment>, spans: Spans)
    requires SpansOk(atoms, spans)
    ensures |atoms| - Deeps(atoms) <= |Flatten(spans)|
    ensures Deeps(atoms) == 0 ==> |Flatten(spans)| == |atoms|
  {
    if atoms != [] {
      assert SpanOk(atoms[0], spans[0]);
      LengthBound(atoms[1..], spans[1..]);
    }
  }

  lemma {:induction false} DeepsBound(atoms: seq<Segment>)
    ensures Deeps(atoms) <= |atoms|
  {
    if atoms != [] {
      DeepsBound(atoms[1..]);
    }
  }

  /** Wildcards read any components, if their number fits. */
  lemma {:induction false} WildcardsRead(atoms: seq<Segment>, comps: seq<string>) returns (spans: Spans)
    requires Deeps(atoms) <= 1 && WildcardsOnly(atoms)
    requires |atoms| - Deeps(atoms) <= |comps| && (Deeps(atoms) == 0 ==> |atoms| == |comps|)
    ensures SpansOk(atoms, spans) && Flatten(spans) == comps
  {
    if atoms == [] {
      return [];
    }
    assert atoms[0] == Wildcard || atoms[0] == DeepWildcard;
    var n := if atoms[0] == Wildcard then 1 else |comps| - (|atoms| - 1);
    DeepsBound(atoms);
    var rest := WildcardsRead(atoms[1..], comps[n..]);
    spans := [comps[..n]] + rest;
    assert spans[1..] == rest && comps[..n] + comps[n..] == comps;
    forall i | 0 <= i < |atoms| ensures SpanOk(atoms[i], spans[i]) {
      assert i > 0 ==> SpanOk(atoms[1..][i - 1], rest[i - 1]);
    }
  }

  /** A template that reads empty components reads others exactly if their number fits. */
  lemma BlankServesExactlyWhen(segments: seq<Segment>, blank: seq<string>, spans: Spans, comps: seq<string>)
    requires Shape(segments) && Deeps(Atoms(segments)) <= 1
    requires Reading(segments, blank, spans) && forall c <- blank :: c == ""
    ensures var atoms := Atoms(segments);
      && WildcardsOnly(atoms)
      && ((exists spans' :: Reading(segments, comps, spans'))
          <==> |atoms| - Deeps(atoms) <= |comps| && (Deeps(atoms) == 0 ==> |comps| == |blank|))
  {
    var atoms := Atoms(segments);
    AtomLiterals(segments);
    BlankSpans(atoms, spans);
    LengthBound(atoms, spans);
    if |atoms| - Deeps(atoms) <= |comps| && (Deeps(atoms) == 0 ==> |comps| == |blank|) {
      var spans' := WildcardsRead(atoms, comps);
      assert Reading(segments, comps, spans');
    }
    forall spans' | Reading(segments, comps, spans')
      ensures |atoms| - Deeps(atoms) <= |comps| && (Deeps(atoms) == 0 ==> |comps| == |blank|)
    {
      LengthBound(atoms, spans');
    }
  }

  /** Whether the segments serve a path with a verb behind it. */
  ghost predicate VerbServed(segments: seq<Segment>, path: string, k: nat)
    requires k < |Atoms(segments)|
  {
    var atoms := Atoms(segments);
    if path == "/" then |atoms| - Deeps(atoms) <= 1 else !atoms[k].Literal?
  }

  lemma RootVerb(segments: seq<Segment>, path: string, verb: string, spans: Spans, k: nat)
    requires Shape(segments) && Deeps(Atoms(segments)) <= 1 && (path == "" || path == "/") && '/' !in verb
    requires Reading(segments, PathComponents(path), spans) && TakesLast(spans, k)
    ensures (exists spans' :: Reading(segments, PathComponents(path + (":" + verb)), spans'))
       <==> VerbServed(segments, path, k)
  {
    RootComponents(verb);
    BlankServesExactlyWhen(segments, PathComponents(path), spans, PathComponents(path + (":" + verb)));
    LengthBound(Atoms(segments), spans);
  }

  lemma OtherVerb(segments: seq<Segment>, path: string, verb: string, spans: Spans, k: nat)
    requires Deeps(Atoms(segments)) <= 1 && path != "" && path != "/" && '/' !in verb
    requires Reading(segments, PathComponents(path), spans) && TakesLast(spans, k)
    ensures (exists spans' :: Reading(segments, PathComponents(path + (":" + verb)), spans'))
       <==> VerbServed(segments, path, k)
  {
    VerbComponents(path, verb);
    VerbIsTextExactlyWhen(segments, PathComponents(path), verb, spans, k);
  }

  /** The router drops the verb of a template. A path that its segments serve is served with the template's
      verb written behind it exactly if its last component is not a literal's: for `/v1/{name}:cancel` the
      verb becomes part of the name, and `/v1/cancel:now` never serves its own text. The root path, of which
      the router makes two components, is so exactly if one component is enough for the template. */
  lemma VerbServedExactlyWhen(p: string, path: string) returns (spans: Spans, k: nat)
    requires TemplateServes(p, path) && PatternOf(ParseTemplate(p).value, "", true).Some?
    requires '/' !in ParseTemplate(p).value.verb
    ensures var t := ParseTemplate(p).value;
      var atoms := Atoms(t.segments);
      && Reading(t.segments, PathComponents(path), spans) && TakesLast(spans, k)
      && (TemplateServes(p, path + (":" + t.verb))
          <==> if path == "/" then |atoms| - Deeps(atoms) <= 1 else !atoms[k].Literal?)
  {
    var t := ParseTemplate(p).value;
    spans :| Reading(t.segments, PathComponents(path), spans);
    k := SomeTakesLast(spans);
    ParsedShape(p);
    ShapeIsCompilable(t.segments);
    FlatAcceptance(t, "", true);
    if path == "" || path == "/" {
      RootVerb(t.segments, path, t.verb, spans, k);
    } else {
      OtherVerb(t.segments, path, t.verb, spans, k);
    }
  }
}
