/** The functions of Go's `strings` package that the modelled code calls.

    A string is a sequence of characters. The code cuts strings at ASCII characters only, so positions in
    characters serve where Go counts bytes, and no part of a cut character is ever seen. */
module Text {

  /** strings.Join */
  function Join(parts: seq<string>, sep: string): string
  {
    if |parts| == 0 then "" else
    if |parts| == 1 then parts[0] else parts[0] + sep + Join(parts[1..], sep)
  }

  /** strings.IndexAny, with the second argument as a set; -1 when there is none. */
  function IndexAny(s: string, chars: set<char>): (i: int)
    ensures -1 <= i < |s|
    ensures 0 <= i ==> s[i] in chars
    ensures forall k :: 0 <= k < |s| && (i < 0 || k < i) ==> s[k] !in chars
  {
    if s == "" then -1 else
    if s[0] in chars then 0 else
    var i := IndexAny(s[1..], chars);
    if i < 0 then -1 else i + 1
  }

  /** strings.LastIndex for a one-character needle; -1 when there is none. */
  function LastIndex(s: string, c: char): (i: int)
    ensures -1 <= i < |s|
    ensures 0 <= i ==> s[i] == c
    ensures forall k :: i < k < |s| ==> s[k] != c
  {
    if s == "" then -1 else
    if s[|s| - 1] == c then |s| - 1 else LastIndex(s[..|s| - 1], c)
  }

  /** strings.Split for a one-character separator. */
  function Split(s: string, c: char): (parts: seq<string>)
    ensures |parts| > 0
    ensures forall p <- parts :: c !in p
    decreases |s|
  {
    var i := IndexAny(s, {c});
    if i < 0 then [s] else [s[..i]] + Split(s[i + 1..], c)
  }

  /** All the parts, one after the other. */
  function Concat(parts: seq<string>): string
  {
    if parts == [] then "" else parts[0] + Concat(parts[1..])
  }

  lemma PlusAssociates<T>(a: seq<T>, b: seq<T>, c: seq<T>)
    ensures a + b + c == a + (b + c)
  {
  }

  lemma {:induction false} ConcatAppend(a: seq<string>, b: seq<string>)
    ensures Concat(a + b) == Concat(a) + Concat(b)
  {
    if a == [] {
      assert a + b == b;
    } else {
      assert (a + b)[1..] == a[1..] + b;
      ConcatAppend(a[1..], b);
    }
  }

  lemma {:induction false} IndexAnyAfter(a: string, b: string, chars: set<char>)
    requires forall r <- a :: r !in chars
    requires b != "" && b[0] in chars
    ensures IndexAny(a + b, chars) == |a|
  {
    if a == "" {
      assert a + b == b;
    } else {
      assert (a + b)[1..] == a[1..] + b;
      IndexAnyAfter(a[1..], b, chars);
    }
  }

  lemma SplitHead(a: string, c: char, rest: string)
    requires c !in a
    ensures Split(a + [c] + rest, c) == [a] + Split(rest, c)
  {
    var s := a + [c] + rest;
    assert s == a + ([c] + rest);
    IndexAnyAfter(a, [c] + rest, {c});
    assert s[..|a|] == a && s[|a| + 1..] == rest;
  }

  /** Splitting undoes joining when no part holds the separator. */
  lemma {:induction false} SplitJoin(parts: seq<string>, c: char)
    requires parts != []
    requires forall p <- parts :: c !in p
    ensures Split(Join(parts, [c]), c) == parts
  {
    assert c !in parts[0];
    if |parts| > 1 {
      SplitHead(parts[0], c, Join(parts[1..], [c]));
      SplitJoin(parts[1..], c);
    }
  }

  /** Joining undoes splitting. */
  lemma {:induction false} JoinSplit(s: string, c: char)
    ensures Join(Split(s, c), [c]) == s
    decreases |s|
  {
    var i := IndexAny(s, {c});
    if 0 <= i {
      JoinSplit(s[i + 1..], c);
      assert s == s[..i] + [c] + s[i + 1..];
    }
  }
}
