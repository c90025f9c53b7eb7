/** The template AST of api/router/util/types.go and its printers. */
module Types {
  import opened Text

  datatype Segment =
    | Wildcard
    | DeepWildcard
    | Literal(text: string)
    | Variable(path: string, segments: seq<Segment>)

  datatype Template = Template(verb: string, template: string, segments: seq<Segment>)

  /** What `segment.String` prints. */
  function Print(s: Segment): string
  {
    match s
    case Wildcard => "*"
    case DeepWildcard => "**"
    case Literal(text) => text
    case Variable(path, segments) => "{" + path + "=" + Join(PrintAll(segments), "/") + "}"
  }

  function PrintAll(segments: seq<Segment>): (r: seq<string>)
    ensures |r| == |segments|
  {
    if segments == [] then [] else [Print(segments[0])] + PrintAll(segments[1..])
  }

  /** What `template.String` prints. */
  function PrintTemplate(t: Template): string
  {
    "/" + WithVerb(Join(PrintAll(t.segments), "/"), t.verb)
  }

  function WithVerb(s: string, verb: string): string
  {
    if verb == "" then s else s + ":" + verb
  }

  /** `segment.String`; the loop is the body of `variable.String`. */
  method SegmentString(s: Segment) returns (str: string)
    ensures str == Print(s)
    decreases s
  {
    match s
    case Wildcard => return "*";
    case DeepWildcard => return "**";
    case Literal(text) => return text;
    case Variable(path, segments) =>
      var segs := [];
      for i := 0 to |segments|
        invariant segs + PrintAll(segments[i..]) == PrintAll(segments)
      {
        var p := SegmentString(segments[i]);
        segs := segs + [p];
      }
      assert segs == PrintAll(segments);
      return "{" + path + "=" + Join(segs, "/") + "}";
  }

  method TemplateString(t: Template) returns (str: string)
    ensures str == PrintTemplate(t)
  {
    var segs := [];
    for i := 0 to |t.segments|
      invariant segs + PrintAll(t.segments[i..]) == PrintAll(t.segments)
    {
      var p := SegmentString(t.segments[i]);
      segs := segs + [p];
    }
    assert segs == PrintAll(t.segments);
    str := Join(segs, "/");
    if t.verb != "" {
      str := str + ":" + t.verb;
    }
    str := "/" + str;
  }

  // ----- Shapes of templates -----

  /** No variable inside a variable. */
  predicate Flat(segments: seq<Segment>)
  {
    forall s <- segments :: s.Variable? ==> AtomsOnly(s.segments)
  }

  predicate AtomsOnly(segments: seq<Segment>)
  {
    forall s <- segments :: !s.Variable?
  }

  /** No empty literal and no empty field path at any level. */
  predicate Named(segments: seq<Segment>)
  {
    forall s <- segments ::
      && (s.Literal? ==> s.text != "")
      && (s.Variable? ==> s.path != "" && Named(s.segments))
  }

  /** The atoms of a flat template from left to right. */
  function Atoms(segments: seq<Segment>): seq<Segment>
  {
    if segments == [] then [] else AtomsOf(segments[0]) + Atoms(segments[1..])
  }

  function AtomsOf(s: Segment): seq<Segment>
  {
    if s.Variable? then s.segments else [s]
  }

  /** How often `**` occurs in a list of atoms. */
  function Deeps(atoms: seq<Segment>): nat
  {
    if atoms == [] then 0 else (if atoms[0] == DeepWildcard then 1 else 0) + Deeps(atoms[1..])
  }
}
