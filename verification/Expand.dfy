/** Filling a template's variables, and matching the path that results. */
module Expand {
  import opened CompilerTheorem
  import opened Meaning
  import opened Runtime
  import opened Text
  import opened Types
  import opened Wrappers

  /** The components of a request path, as `Router.endpoint` splits it. */
  function PathComponents(path: string): seq<string>
  {
    Split(if path != "" && path != "/" then path[1..] else path, '/')
  }

  /** A literal without `/`, or a variable over one `*`. */
  predicate Fillable(segments: seq<Segment>)
  {
    segments != [] && forall s <- segments ::
      || (s.Literal? && s.text != "" && '/' !in s.text)
      || (s.Variable? && s.path != "" && s.segments == [Wildcard])
  }

  /** The values of the variables, which contain no `/`; one for every name, and no other. */
  ghost predicate Fills(segments: seq<Segment>, values: map<string, string>)
  {
    && (forall n :: n in values <==> n in VariableNames(segments))
    && (forall n <- values :: '/' !in values[n])
  }

  function Filled(segments: seq<Segment>, values: map<string, string>): (r: seq<string>)
    ensures |r| == |segments|
  {
    if segments == [] then [] else
    var s := segments[0];
    [if s.Literal? then s.text else if s.Variable? && s.path in values then values[s.path] else ""]
    + Filled(segments[1..], values)
  }

  function Singles(comps: seq<string>): (r: Spans)
    ensures |r| == |comps|
  {
    seq(|comps|, i requires 0 <= i < |comps| => [comps[i]])
  }

  lemma {:induction false} FlattenSingles(comps: seq<string>)
    ensures Flatten(Singles(comps)) == comps
  {
    if comps != [] {
      assert Singles(comps)[1..] == Singles(comps[1..]);
      FlattenSingles(comps[1..]);
      assert comps == [comps[0]] + comps[1..];
    }
  }

  /** The filled components have the reading that gives each atom its own component. */
  lemma {:induction false} FilledReading(segments: seq<Segment>, values: map<string, string>)
    requires segments != [] ==> Fillable(segments)
    requires forall n <- VariableNames(segments) :: n in values && '/' !in values[n]
    ensures var comps := Filled(segments, values);
      && Deeps(Atoms(segments)) == 0
      && SpansOk(Atoms(segments), Singles(comps))
      && forall c <- comps :: '/' !in c
    decreases |segments|
  {
    if segments != [] {
      var s, rest := segments[0], segments[1..];
      assert s in segments;
      FilledReading(rest, values);
      assert Atoms(segments) == AtomsOf(s) + Atoms(rest) && AtomsOf(s) == [AtomsOf(s)[0]];
      DeepsAppend(AtomsOf(s), Atoms(rest));
      assert AtomsOf(s)[1..] == [];
      if s.Variable? {
        assert s.path in VariableNames(segments);
      }
    }
  }

  lemma {:induction false} FilledBindings(segments: seq<Segment>, values: map<string, string>)
    requires segments != [] ==> Fillable(segments)
    requires forall n <- VariableNames(segments) :: n in values
    ensures |Atoms(segments)| == |segments|
    ensures Bindings(segments, Singles(Filled(segments, values))) == FilledPairs(VariableNames(segments), values)
    decreases |segments|
  {
    if segments != [] {
      var s, rest := segments[0], segments[1..];
      assert s in segments;
      FilledBindings(rest, values);
      var comps := Filled(segments, values);
      assert comps[1..] == Filled(rest, values);
      assert Singles(comps) == [[comps[0]]] + Singles(comps[1..]);
      BindingsCons(s, rest, [comps[0]], Singles(comps[1..]));
      VariablePairs(segments, values);
    }
  }

  /** Each name with its value. */
  function FilledPairs(names: seq<string>, values: map<string, string>): (r: seq<(string, string)>)
    requires forall n <- names :: n in values
    ensures |r| == |names|
  {
    seq(|names|, i requires 0 <= i < |names| => (names[i], values[names[i]]))
  }

  lemma PairsCons(n: string, more: seq<string>, values: map<string, string>)
    requires n in values && forall m <- more :: m in values
    ensures forall m <- [n] + more :: m in values
    ensures FilledPairs([n] + more, values) == [(n, values[n])] + FilledPairs(more, values)
  {
  }

  lemma VariablePairs(segments: seq<Segment>, values: map<string, string>)
    requires segments != [] && forall n <- VariableNames(segments) :: n in values
    ensures forall n <- VariableNames(segments[1..]) :: n in values
    ensures segments[0].Variable? ==> segments[0].path in values
    ensures FilledPairs(VariableNames(segments), values)
         == (if segments[0].Variable? then [(segments[0].path, values[segments[0].path])] else [])
            + FilledPairs(VariableNames(segments[1..]), values)
  {
    var names, more := VariableNames(segments), VariableNames(segments[1..]);
    if segments[0].Variable? {
      assert names[0] in values && forall m <- more :: m in names;
      PairsCons(segments[0].path, more, values);
    } else {
      assert names == more;
    }
  }

  lemma BindingsCons(s: Segment, rest: seq<Segment>, span: seq<string>, more: Spans)
    requires |AtomsOf(s)| == 1 && |more| == |Atoms(rest)|
    ensures |Atoms([s] + rest)| == |[span] + more|
    ensures Bindings([s] + rest, [span] + more)
         == (if s.Variable? then [(s.path, Join(span, "/"))] else []) + Bindings(rest, more)
  {
    assert ([s] + rest)[1..] == rest;
    assert ([span] + more)[..1] == [span] && ([span] + more)[1..] == more;
    assert Values([span]) == [Join(span, "/")];
  }

  lemma {:induction false} BindGathers(names: seq<string>, vals: seq<string>, values: map<string, string>)
    requires |names| == |vals|
    requires forall i :: 0 <= i < |names| ==> names[i] in values && vals[i] == values[names[i]]
    ensures Bind(names, vals) == map n | n in values && n in names :: values[n]
  {
    if names != [] {
      var k := |names| - 1;
      BindGathers(names[..k], vals[..k], values);
      assert names == names[..k] + [names[k]];
    }
  }

  /** Expand and match are inverse: fill the variables of a template of literals and single-`*`
      variables, join the components to a path, let the router split it, and Match returns exactly the
      values. The one exception is a lone variable filled with the empty string: its path is `/`, which
      the router splits into two components, so nothing matches. */
  lemma FillThenMatch(t: Template, assumeColonVerb: bool, values: map<string, string>)
    requires Fillable(t.segments) && Fills(t.segments, values)
    ensures PatternOf(t, "", assumeColonVerb).Some?
    ensures var comps := Filled(t.segments, values);
      MatchResult(PatternOf(t, "", assumeColonVerb).value, PathComponents("/" + Join(comps, "/")), "")
      == if comps == [""] then None else Some(values)
  {
    var comps := Filled(t.segments, values);
    FilledReading(t.segments, values);
    var split := PathComponents("/" + Join(comps, "/"));
    OwnVerbCorrect(t, "", assumeColonVerb, split);
    if comps == [""] {
      RootPath();
      forall spans | Reading(t.segments, split, spans)
        ensures false
      {
        ShallowLength(Atoms(t.segments), spans);
        FilledBindings(t.segments, values);
      }
    } else {
      FilledPath(comps);
      FlattenSingles(comps);
      assert Reading(t.segments, split, Singles(comps));
      FilledBind(t.segments, values);
    }
  }

  lemma FilledBind(segments: seq<Segment>, values: map<string, string>)
    requires Fillable(segments) && Fills(segments, values)
    ensures |Atoms(segments)| == |segments|
    ensures var bs := Bindings(segments, Singles(Filled(segments, values))); Bind(Names(bs), Vals(bs)) == values
  {
    FilledBindings(segments, values);
    PairsBind(VariableNames(segments), values);
  }

  lemma PairsBind(names: seq<string>, values: map<string, string>)
    requires forall n :: n in values <==> n in names
    ensures var bs := FilledPairs(names, values); Bind(Names(bs), Vals(bs)) == values
  {
    var bs := FilledPairs(names, values);
    BindGathers(Names(bs), Vals(bs), values);
    assert Names(bs) == names;
  }

  lemma RootPath()
    ensures |PathComponents("/" + Join([""], "/"))| == 2
  {
    SplitHead("", '/', "");
    assert "" + ['/'] + "" == "/" == "/" + Join([""], "/");
  }

  lemma FilledPath(comps: seq<string>)
    requires comps != [] && comps != [""] && forall c <- comps :: '/' !in c
    ensures PathComponents("/" + Join(comps, "/")) == comps
  {
    var path := "/" + Join(comps, "/");
    assert Join(comps, "/") != "" by {
      if |comps| == 1 {
        assert comps == [comps[0]];
      }
    }
    assert path[1..] == Join(comps, "/");
    SplitJoin(comps, '/');
  }
}
