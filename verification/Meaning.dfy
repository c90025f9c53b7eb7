/** What a template means, independently of any bytecode. */
module Meaning {
  import opened Text
  import opened Types

  // A template is a way to cut the path components into consecutive spans, one per atom, and gives each variable
  // a value then.

  type Spans = seq<seq<string>>

  /** `*` takes one component, a literal takes one component equal to it, `**` takes any number. */
  predicate SpanOk(atom: Segment, span: seq<string>)
  {
    match atom
    case Wildcard => |span| == 1
    case DeepWildcard => true
    case Literal(text) => span == [text]
    case Variable(_, _) => false
  }

  function Flatten(spans: Spans): seq<string>
  {
    if spans == [] then [] else spans[0] + Flatten(spans[1..])
  }

  predicate SpansOk(atoms: seq<Segment>, spans: Spans)
  {
    |spans| == |atoms| && forall i :: 0 <= i < |atoms| ==> SpanOk(atoms[i], spans[i])
  }

  /** `spans` is a reading of `comps` as the template `segments`. */
  predicate Reading(segments: seq<Segment>, comps: seq<string>, spans: Spans)
  {
    SpansOk(Atoms(segments), spans) && Flatten(spans) == comps
  }

  /** The components of the path that has `:` and `verb` behind it. */
  function Folded(comps: seq<string>, verb: string): seq<string>
  {
    if comps == [] then [":" + verb] else comps[..|comps| - 1] + [comps[|comps| - 1] + (":" + verb)]
  }

  /** `spans` is a reading of what the pattern of the template with `verb` sees of a request: a verb that is
      not its own it sees as text if it has none and the colon option is off, and not at all otherwise. */
  predicate RequestReading(segments: seq<Segment>, verb: string, assumeColonVerb: bool, comps: seq<string>,
                           requested: string, spans: Spans)
  {
    if requested == verb then Reading(segments, comps, spans) else
    verb == "" && !assumeColonVerb && Reading(segments, Folded(comps, requested), spans)
  }

  /** The text of each span: its components joined by `/`. */
  function Values(spans: Spans): (r: seq<string>)
    ensures |r| == |spans|
  {
    seq(|spans|, i requires 0 <= i < |spans| => Join(spans[i], "/"))
  }

  /** The variables of a flat template in order, each with the `/`-join of its atoms' span texts. */
  function Bindings(segments: seq<Segment>, spans: Spans): seq<(string, string)>
    requires |spans| == |Atoms(segments)|
  {
    if segments == [] then [] else
    var n := |AtomsOf(segments[0])|;
    BindingOf(segments[0], spans[..n]) + Bindings(segments[1..], spans[n..])
  }

  function BindingOf(s: Segment, spans: Spans): seq<(string, string)>
  {
    if s.Variable? then [(s.path, Join(Values(spans), "/"))] else []
  }

  function Names(bindings: seq<(string, string)>): (r: seq<string>)
    ensures |r| == |bindings|
  {
    seq(|bindings|, i requires 0 <= i < |bindings| => bindings[i].0)
  }

  function Vals(bindings: seq<(string, string)>): (r: seq<string>)
    ensures |r| == |bindings|
  {
    seq(|bindings|, i requires 0 <= i < |bindings| => bindings[i].1)
  }

  /** `fields` has exactly the names of the bindings, each with the value of its last binding. */
  ghost predicate LastOfEach(bs: seq<(string, string)>, fields: map<string, string>)
  {
    && (forall n :: n in fields <==> n in Names(bs))
    && forall k | 0 <= k < |bs| && (forall j :: k < j < |bs| ==> bs[j].0 != bs[k].0) ::
         bs[k].0 in fields && fields[bs[k].0] == bs[k].1
  }

  /** The names of the variables of a flat template, in order. */
  function VariableNames(segments: seq<Segment>): seq<string>
  {
    if segments == [] then [] else
    (if segments[0].Variable? then [segments[0].path] else []) + VariableNames(segments[1..])
  }

  /** The condition under which NewPattern accepts a flat compiled template, as `CompilerTheorem` proves. */
  predicate Acceptable(segments: seq<Segment>)
  {
    Deeps(Atoms(segments)) <= 1 && Bodied(segments)
  }

  /** No variable has an empty body. */
  predicate Bodied(segments: seq<Segment>)
  {
    forall s <- segments :: s.Variable? ==> s.segments != []
  }

  /** Folding the verb into the components is writing it behind the path. */
  lemma {:induction false} FoldedText(comps: seq<string>, verb: string)
    ensures Join(Folded(comps, verb), "/") == Join(comps, "/") + (":" + verb)
  {
    if |comps| > 1 {
      FoldedText(comps[1..], verb);
      assert Folded(comps, verb)[1..] == Folded(comps[1..], verb);
      PlusAssociates(comps[0] + "/", Join(comps[1..], "/"), ":" + verb);
    } else if |comps| == 1 {
      assert comps[..0] == [] && Folded(comps, verb) == [comps[0] + (":" + verb)];
    } else {
      assert "" + (":" + verb) == ":" + verb;
    }
  }

  lemma {:induction false} FlattenAppend(a: Spans, b: Spans)
    ensures Flatten(a + b) == Flatten(a) + Flatten(b)
  {
    if a == [] {
      assert a + b == b;
    } else {
      assert (a + b)[1..] == a[1..] + b;
      FlattenAppend(a[1..], b);
    }
  }

  lemma {:induction false} DeepsAppend(a: seq<Segment>, b: seq<Segment>)
    ensures Deeps(a + b) == Deeps(a) + Deeps(b)
  {
    if a == [] {
      assert a + b == b;
    } else {
      assert (a + b)[1..] == a[1..] + b;
      DeepsAppend(a[1..], b);
    }
  }

  /** Without `**`, the spans are as many as the components they cover. */
  lemma {:induction false} ShallowLength(atoms: seq<Segment>, spans: Spans)
    requires SpansOk(atoms, spans) && Deeps(atoms) == 0
    ensures |Flatten(spans)| == |atoms|
  {
    if atoms != [] {
      assert SpanOk(atoms[0], spans[0]);
      ShallowLength(atoms[1..], spans[1..]);
    }
  }

  // ----- The value of a variable as text -----

  lemma {:induction false} JoinAppend(a: seq<string>, b: seq<string>)
    requires a != [] && b != []
    ensures Join(a + b, "/") == Join(a, "/") + "/" + Join(b, "/")
  {
    if |a| == 1 {
      assert (a + b)[1..] == b;
    } else {
      JoinAppend(a[1..], b);
      assert (a + b)[1..] == a[1..] + b;
      PlusAssociates(a[0] + "/", Join(a[1..], "/") + "/", Join(b, "/"));
      PlusAssociates(a[0] + "/", Join(a[1..], "/"), "/");
    }
  }

  /** Joining the texts of spans that are not empty is joining all their components. */
  lemma {:induction false} JoinOfSpans(spans: Spans)
    requires spans != [] && forall i :: 0 <= i < |spans| ==> spans[i] != []
    ensures Flatten(spans) != [] && Join(Values(spans), "/") == Join(Flatten(spans), "/")
  {
    assert Values(spans)[0] == Join(spans[0], "/");
    if |spans| == 1 {
      assert spans[1..] == [] && spans[0] + [] == spans[0];
    } else {
      JoinOfSpans(spans[1..]);
      assert Values(spans)[1..] == Values(spans[1..]);
      JoinAppend(spans[0], Flatten(spans[1..]));
    }
  }

  /** The components of a variable's value are those of its spans, if no span is empty. */
  lemma VariableText(s: Segment, spans: Spans)
    requires s.Variable? && spans != [] && forall i :: 0 <= i < |spans| ==> spans[i] != []
    requires forall c <- Flatten(spans) :: '/' !in c
    ensures BindingOf(s, spans)[0].0 == s.path
    ensures Split(BindingOf(s, spans)[0].1, '/') == Flatten(spans)
  {
    JoinOfSpans(spans);
    SplitJoin(Flatten(spans), '/');
  }

  /** A `**` at the end that takes nothing leaves a slash behind the value. */
  lemma EmptyTailText(s: Segment, spans: Spans)
    requires s.Variable? && spans != []
    ensures BindingOf(s, spans + [[]])[0].1 == BindingOf(s, spans)[0].1 + "/"
  {
    assert Values(spans + [[]]) == Values(spans) + [""];
    JoinAppend(Values(spans), [""]);
    assert Join(Values(spans), "/") + "/" + "" == Join(Values(spans), "/") + "/";
  }

  // ----- Which components have a reading, without spans -----

  ghost predicate Reads(segments: seq<Segment>, comps: seq<string>)
  {
    exists spans :: Reading(segments, comps, spans)
  }

  /** What one segment reads: `*` one component, a literal itself, `**` anything, a variable what its body does. */
  ghost predicate ReadsOne(s: Segment, comps: seq<string>)
  {
    match s
    case Wildcard => |comps| == 1
    case DeepWildcard => true
    case Literal(text) => comps == [text]
    case Variable(_, segments) => Reads(segments, comps)
  }

  lemma ReadsNothing(comps: seq<string>)
    ensures Reads([], comps) <==> comps == []
  {
    if comps == [] {
      assert Reading([], comps, []);
    }
  }

  lemma {:induction false} AtomsOfAtoms(segments: seq<Segment>)
    requires forall s <- segments :: !s.Variable?
    ensures Atoms(segments) == segments
  {
    if segments != [] {
      AtomsOfAtoms(segments[1..]);
    }
  }

  lemma OneReads(s: Segment, comps: seq<string>)
    requires s.Variable? ==> forall a <- s.segments :: !a.Variable?
    ensures ReadsOne(s, comps) <==> exists spans :: SpansOk(AtomsOf(s), spans) && Flatten(spans) == comps
  {
    if s.Variable? {
      AtomsOfAtoms(s.segments);
      assert forall spans ::
        (Reading(s.segments, comps, spans) <==> SpansOk(AtomsOf(s), spans) && Flatten(spans) == comps);
    } else {
      if ReadsOne(s, comps) {
        assert SpansOk([s], [comps]) && Flatten([comps]) == comps + [];
      }
      forall spans | SpansOk([s], spans) && Flatten(spans) == comps
        ensures ReadsOne(s, comps)
      {
        assert SpanOk([s][0], spans[0]) && spans[1..] == [];
        assert Flatten(spans) == spans[0] + Flatten(spans[1..]) == spans[0];
      }
    }
  }

  lemma SpansAppend(a: seq<Segment>, b: seq<Segment>, spans: Spans)
    requires |spans| == |a| + |b|
    ensures SpansOk(a + b, spans) <==> SpansOk(a, spans[..|a|]) && SpansOk(b, spans[|a|..])
    ensures Flatten(spans) == Flatten(spans[..|a|]) + Flatten(spans[|a|..])
  {
    FlattenAppend(spans[..|a|], spans[|a|..]);
    assert spans[..|a|] + spans[|a|..] == spans;
    if SpansOk(a, spans[..|a|]) && SpansOk(b, spans[|a|..]) {
      forall i | 0 <= i < |a + b| ensures SpanOk((a + b)[i], spans[i]) {
        assert i >= |a| ==> spans[|a|..][i - |a|] == spans[i] && SpanOk(b[i - |a|], spans[|a|..][i - |a|]);
        assert i < |a| ==> SpanOk(a[i], spans[..|a|][i]);
      }
    }
    if SpansOk(a + b, spans) {
      forall i | 0 <= i < |b| ensures SpanOk(b[i], spans[|a|..][i]) {
        assert SpanOk((a + b)[|a| + i], spans[|a| + i]);
      }
      forall i | 0 <= i < |a| ensures SpanOk(a[i], spans[..|a|][i]) {
        assert SpanOk((a + b)[i], spans[i]);
      }
    }
  }

  /** A template reads the components exactly if its first segment reads some of them from the front, and the
      others read the rest. */
  lemma ReadsFirst(segments: seq<Segment>, comps: seq<string>)
    requires segments != [] && (segments[0].Variable? ==> forall a <- segments[0].segments :: !a.Variable?)
    ensures Reads(segments, comps)
       <==> exists n :: 0 <= n <= |comps| && ReadsOne(segments[0], comps[..n]) && Reads(segments[1..], comps[n..])
  {
    if Reads(segments, comps) {
      var spans :| Reading(segments, comps, spans);
      SplitReading(segments, comps, spans);
    }
    forall n | 0 <= n <= |comps| && ReadsOne(segments[0], comps[..n]) && Reads(segments[1..], comps[n..])
      ensures Reads(segments, comps)
    {
      JoinReadings(segments, comps[..n], comps[n..]);
      assert comps[..n] + comps[n..] == comps;
    }
  }

  lemma SplitReading(segments: seq<Segment>, comps: seq<string>, spans: Spans)
    requires segments != [] && (segments[0].Variable? ==> forall a <- segments[0].segments :: !a.Variable?)
    requires Reading(segments, comps, spans)
    ensures exists n :: 0 <= n <= |comps| && ReadsOne(segments[0], comps[..n]) && Reads(segments[1..], comps[n..])
  {
    var a, b := AtomsOf(segments[0]), Atoms(segments[1..]);
    SpansAppend(a, b, spans);
    var n := |Flatten(spans[..|a|])|;
    assert comps[..n] == Flatten(spans[..|a|]) && comps[n..] == Flatten(spans[|a|..]);
    OneReads(segments[0], comps[..n]);
    assert Reading(segments[1..], comps[n..], spans[|a|..]);
  }

  lemma JoinReadings(segments: seq<Segment>, front: seq<string>, back: seq<string>)
    requires segments != [] && (segments[0].Variable? ==> forall a <- segments[0].segments :: !a.Variable?)
    requires ReadsOne(segments[0], front) && Reads(segments[1..], back)
    ensures Reads(segments, front + back)
  {
    var a, b := AtomsOf(segments[0]), Atoms(segments[1..]);
    OneReads(segments[0], front);
    var first :| SpansOk(a, first) && Flatten(first) == front;
    var rest :| Reading(segments[1..], back, rest);
    var spans := first + rest;
    assert spans[..|a|] == first && spans[|a|..] == rest;
    SpansAppend(a, b, spans);
    assert Reading(segments, front + back, spans);
  }
}
