/** Node kinds, node identities, the line format of the input and the way a node is rendered. */
module Nodes {

  /** The two kinds of node. */
  datatype NodeType = Movie | Actor

  /** The marker of a kind: it starts the kind's input lines and brackets its names in a rendered path. */
  function Prefix(t: NodeType): (p: string)
    ensures |p| == 3 && p[0] == '<' && p[2] == '>'
  {
    match t
    case Movie => "<t>"
    case Actor => "<a>"
  }

  /** The two markers differ, so no line is both an actor line and a title line. */
  lemma PrefixesDiffer()
    ensures Prefix(Actor) != Prefix(Movie)
  {
    assert Prefix(Actor)[1] != Prefix(Movie)[1];
  }

  /**
   * The identity of a node. A movie is identified by its title: a repeated
   * title reuses the node made for it the first time. Every actor line makes
   * a fresh actor node, even for a name declared before, so an actor node is
   * identified by its name together with the index of the line that made it.
   */
  datatype NodeId = ActorNode(name: string, line: nat) | MovieNode(name: string)
  {
    function Type(): NodeType {
      if ActorNode? then Actor else Movie
    }
  }

  /** How a node appears in a rendered path: its name between two copies of its kind's marker. */
  function Render(v: NodeId): (s: string)
    ensures |s| == |v.name| + 6
    ensures s[..3] == Prefix(v.Type()) && s[|s| - 3..] == Prefix(v.Type())
    ensures s[3..|s| - 3] == v.name
  {
    Prefix(v.Type()) + v.name + Prefix(v.Type())
  }

  predicate StartsWith(s: string, p: string) {
    |p| <= |s| && s[..|p|] == p
  }

  /** What an input line declares. */
  datatype Line = ActorLine(name: string) | TitleLine(title: string) | Ignored

  /**
   * Classifies an input line: an actor line starts with the actor marker, a
   * title line with the movie marker (tested in that order), and the text
   * after the marker is the declared name. Every other line is ignored.
   */
  function Classify(line: string): (c: Line)
    ensures c.ActorLine? <==> StartsWith(line, Prefix(Actor))
    ensures c.TitleLine? <==> StartsWith(line, Prefix(Movie))
    ensures c.ActorLine? ==> line == Prefix(Actor) + c.name
    ensures c.TitleLine? ==> line == Prefix(Movie) + c.title
  {
    if StartsWith(line, Prefix(Actor)) then ActorLine(line[3..])
    else if StartsWith(line, Prefix(Movie)) then TitleLine(line[3..])
    else Ignored
  }

  /** Writing a name after a marker and classifying the line gives the declaration back. */
  lemma ClassifyMarked(t: NodeType, name: string)
    ensures Classify(Prefix(t) + name) == (if t == Actor then ActorLine(name) else TitleLine(name))
  {
    var line := Prefix(t) + name;
    assert line[..3] == Prefix(t);
    assert line[3..] == name;
  }

  /** The characters Java's `Character.isWhitespace` accepts. */
  predicate IsWhitespace(c: char) {
    || '\t' <= c <= '\r'
    || '\U{001C}' <= c <= ' '
    || c == '\U{1680}'
    || '\U{2000}' <= c <= '\U{2006}'
    || '\U{2008}' <= c <= '\U{200A}'
    || c == '\U{2028}' || c == '\U{2029}' || c == '\U{205F}' || c == '\U{3000}'
  }

  /** Java's `String.isBlank`: empty, or whitespace only. */
  predicate IsBlank(s: string) {
    forall i | 0 <= i < |s| :: IsWhitespace(s[i])
  }

  /**
   * The index of the first character of `s` that is not whitespace, or |s|
   * when there is none: the scan by which Java decides `isBlank`.
   */
  function FirstNonWhitespace(s: string): (k: nat)
    ensures k <= |s|
    ensures forall i | 0 <= i < k :: IsWhitespace(s[i])
    ensures k < |s| ==> !IsWhitespace(s[k])
  {
    if |s| == 0 || !IsWhitespace(s[0]) then 0 else 1 + FirstNonWhitespace(s[1..])
  }

  /** A string is blank exactly when the scan for a non-whitespace character runs off its end. */
  lemma BlankIffScanEnds(s: string)
    ensures IsBlank(s) <==> FirstNonWhitespace(s) == |s|
  {
  }
}
