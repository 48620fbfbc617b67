/**
 * The regular-expression lexer and NFA construction of tests/grep.c, as
 * values.
 *
 * The NFA is a graph of nodes and links kept in two growing sequences, the
 * `nodes` and `links` arrays of struct dynRegex; a node or a link is named by
 * its index there. `Parse` and `Loop` state, one token at a time, what
 * dynRegexParse builds; the RegexBuilder module builds the same graph step
 * by step and is proved to agree with them.
 */
module Regex {

  datatype Option<T> = None | Some(value: T)

  /** dynRegexTokenType; a DRTT_CHAR token carries its character. */
  datatype Token =
    | Eof          // DRTT_EOF
    | Char(c: char) // DRTT_CHAR
    | Or           // DRTT_OR
    | ZeroOrMore   // DRTT_ZERO_OR_MORE
    | OneOrMore    // DRTT_ONE_OR_MORE
    | CaptureBegin // DRTT_CAPTURE_BEGIN
    | CaptureEnd   // DRTT_CAPTURE_END
    | CcBegin      // DRTT_CC_BEGIN
    | CcEnd        // DRTT_CC_END

  /** dynRegexParseResult. */
  datatype ParseResult = Ok | EarlyEof | InvalidCc | InvalidMore

  /** The characters regexLex gives a token type of their own. */
  predicate Special(ch: char)
  {
    ch == '|' || ch == '*' || ch == '+' || ch == '(' || ch == ')' || ch == '[' || ch == ']'
  }

  /** The input ends at position pos: past the end, or at a NUL, as in a C string. */
  predicate AtEnd(input: string, pos: nat)
  {
    pos >= |input| || input[pos] == '\0'
  }

  /**
   * regexLex: the token at pos and the position after it. Each character is
   * one token; the end of the input is Eof, and reading it does not advance.
   */
  function Lex(input: string, pos: nat): (r: (Token, nat))
    ensures r.1 == if AtEnd(input, pos) then pos else pos + 1
  {
    if AtEnd(input, pos) then (Eof, pos)
    else
      var ch := input[pos];
      var t :=
        if ch == '|' then Or
        else if ch == '*' then ZeroOrMore
        else if ch == '+' then OneOrMore
        else if ch == '(' then CaptureBegin
        else if ch == ')' then CaptureEnd
        else if ch == '[' then CcBegin
        else if ch == ']' then CcEnd
        else Char(ch);
      (t, pos + 1)
  }

  /** Each special character lexes to its own token type. */
  lemma LexSpecials(input: string, pos: nat)
    requires pos < |input|
    ensures input[pos] == '|' ==> Lex(input, pos) == (Or, pos + 1)
    ensures input[pos] == '*' ==> Lex(input, pos) == (ZeroOrMore, pos + 1)
    ensures input[pos] == '+' ==> Lex(input, pos) == (OneOrMore, pos + 1)
    ensures input[pos] == '(' ==> Lex(input, pos) == (CaptureBegin, pos + 1)
    ensures input[pos] == ')' ==> Lex(input, pos) == (CaptureEnd, pos + 1)
    ensures input[pos] == '[' ==> Lex(input, pos) == (CcBegin, pos + 1)
    ensures input[pos] == ']' ==> Lex(input, pos) == (CcEnd, pos + 1)
  {
  }

  /** The character a token other than Eof is read from: the inverse of regexLex on one character. */
  function Spelling(t: Token): char
    requires t != Eof
  {
    match t
    case Char(c) => c
    case Or => '|'
    case ZeroOrMore => '*'
    case OneOrMore => '+'
    case CaptureBegin => '('
    case CaptureEnd => ')'
    case CcBegin => '['
    case CcEnd => ']'
  }

  /**
   * regexLex reads exactly one character, and gives it back: the token is
   * Eof exactly at the end of the input, any other token is spelt by the
   * character read, and it is a Char token exactly when that character is
   * not special.
   */
  lemma LexReadsOneCharacter(input: string, pos: nat)
    ensures Lex(input, pos).0 == Eof <==> AtEnd(input, pos)
    ensures !AtEnd(input, pos) ==> Spelling(Lex(input, pos).0) == input[pos]
    ensures !AtEnd(input, pos) ==> (Lex(input, pos).0.Char? <==> !Special(input[pos]))
  {
  }

  /** dynRegexLinkType. */
  datatype LinkType = Blank | CharLink

  /** dynRegexCharRange: c2 == '\0' stands for the single character c1. */
  datatype Range = Range(c1: char, c2: char)

  /** dynRegexLink: its type, the `not` flag, its ranges, and the nodes it joins. */
  datatype Link = Link(kind: LinkType, not: bool, ranges: seq<Range>, src: nat, dst: nat)

  /**
   * The graph as it grows: nodes are numbered 0 .. nodeCount - 1 in creation
   * order, links are listed in creation order. A node's own list of links
   * (dynRegexNode.links) is `Outgoing(links, n)`.
   */
  datatype Graph = Graph(nodeCount: nat, links: seq<Link>)

  /** The links leaving node n, in creation order: what dynRegexLinkCreate pushes onto src->links. */
  function Outgoing(links: seq<Link>, n: nat): (r: seq<nat>)
    ensures forall i :: 0 <= i < |r| ==> r[i] < |links|
  {
    if |links| == 0 then []
    else Outgoing(links[..|links| - 1], n) + if links[|links| - 1].src == n then [|links| - 1] else []
  }

  /** Node n lists exactly the links whose source it is, each once, in increasing order. */
  lemma {:induction false} OutgoingExactly(links: seq<Link>, n: nat)
    ensures forall k :: k in Outgoing(links, n) <==> 0 <= k < |links| && links[k].src == n
    ensures forall i, j :: 0 <= i < j < |Outgoing(links, n)| ==> Outgoing(links, n)[i] < Outgoing(links, n)[j]
    decreases |links|
  {
    if |links| > 0 {
      var front := links[..|links| - 1];
      OutgoingExactly(front, n);
      forall k | 0 <= k < |front| ensures front[k] == links[k] { }
    }
  }

  /** A node that no link leaves, such as one numbered above every source, has an empty list. */
  lemma {:induction false} OutgoingOfNewNode(links: seq<Link>, n: nat)
    requires forall k :: 0 <= k < |links| ==> links[k].src < n
    ensures Outgoing(links, n) == []
    decreases |links|
  {
    if |links| > 0 {
      OutgoingOfNewNode(links[..|links| - 1], n);
    }
  }

  /** Appending a link adds it to its source node's list and to no other. */
  lemma OutgoingAppend(links: seq<Link>, l: Link, n: nat)
    ensures Outgoing(links + [l], n) == Outgoing(links, n) + if l.src == n then [|links|] else []
  {
    assert (links + [l])[..|links|] == links;
  }

  /** Changing a link's ranges or its `not` flag leaves every node's list as it was. */
  lemma {:induction false} OutgoingKeepsSources(links: seq<Link>, links': seq<Link>, n: nat)
    requires |links'| == |links| && forall k :: 0 <= k < |links| ==> links'[k].src == links[k].src
    ensures Outgoing(links', n) == Outgoing(links, n)
    decreases |links|
  {
    if |links| > 0 {
      OutgoingKeepsSources(links[..|links| - 1], links'[..|links| - 1], n);
    }
  }

  /** Every link joins nodes that exist. */
  ghost predicate Closed(g: Graph)
  {
    forall k :: 0 <= k < |g.links| ==> g.links[k].src < g.nodeCount && g.links[k].dst < g.nodeCount
  }

  /** dynRegexNodeCreate: one more node, numbered nodeCount, with no links. */
  function AddNode(g: Graph): (r: Graph)
    ensures r.nodeCount == g.nodeCount + 1 && r.links == g.links
  {
    Graph(g.nodeCount + 1, g.links)
  }

  /** dynRegexLinkCreate: a new link numbered |links|, with no ranges and `not` clear. */
  function AddLink(g: Graph, kind: LinkType, src: nat, dst: nat): (r: Graph)
    ensures r.nodeCount == g.nodeCount && r.links == g.links + [Link(kind, false, [], src, dst)]
  {
    Graph(g.nodeCount, g.links + [Link(kind, false, [], src, dst)])
  }

  /** dynRegexLinkAddRange: append the range (c1, c2) to link l; nothing else changes. */
  function AddRange(g: Graph, l: nat, c1: char, c2: char): (r: Graph)
    requires l < |g.links|
    ensures r.nodeCount == g.nodeCount && |r.links| == |g.links|
    ensures r.links[l] == g.links[l].(ranges := g.links[l].ranges + [Range(c1, c2)])
    ensures forall k :: 0 <= k < |g.links| && k != l ==> r.links[k] == g.links[k]
  {
    Graph(g.nodeCount, g.links[l := g.links[l].(ranges := g.links[l].ranges + [Range(c1, c2)])])
  }

  /** cc->not = 1: link l matches the characters outside its ranges; nothing else changes. */
  function SetNot(g: Graph, l: nat): (r: Graph)
    requires l < |g.links|
    ensures r.nodeCount == g.nodeCount && |r.links| == |g.links|
    ensures r.links[l] == g.links[l].(not := true)
    ensures forall k :: 0 <= k < |g.links| && k != l ==> r.links[k] == g.links[k]
  {
    Graph(g.nodeCount, g.links[l := g.links[l].(not := true)])
  }

  /** The outcome of a parse: its result code, the graph built, and where the parser stopped. */
  datatype Outcome = Outcome(result: ParseResult, g: Graph, pos: nat)

  /** The nodes a parse links from and to exist. */
  predicate Anchored(g: Graph, start: nat, end: nat, append: nat, last: Option<(nat, nat)>)
  {
    start < g.nodeCount && end < g.nodeCount && append < g.nodeCount &&
    (last.Some? ==> last.value.0 < g.nodeCount && last.value.1 < g.nodeCount)
  }

  /** dynRegexParse's closing step: a blank link from appendNode to endNode. */
  function Finish(g: Graph, append: nat, end: nat, pos: nat): (r: Outcome)
    ensures r.result == Ok && r.pos == pos && r.g.nodeCount == g.nodeCount
    ensures r.g.links == g.links + [Link(Blank, false, [], append, end)]
  {
    Outcome(Ok, AddLink(g, Blank, append, end), pos)
  }

  /**
   * dynRegexParse: parse from pos until the token endType (Eof at the top,
   * CaptureEnd inside parentheses), linking what is read between start and end.
   */
  function Parse(input: string, pos: nat, g: Graph, start: nat, end: nat, endType: Token): (r: Outcome)
    requires endType == Eof || endType == CaptureEnd
    ensures pos <= r.pos && g.nodeCount <= r.g.nodeCount && |g.links| <= |r.g.links|
    decreases |input| - pos, 2
  {
    Loop(input, pos, g, start, end, endType, start, None)
  }

  /**
   * '*' (star) or '+' after the atom (s, e): a blank link s -> e for '*' only,
   * then a blank link e -> s for both.
   */
  function Repeated(g: Graph, star: bool, s: nat, e: nat): (r: Graph)
    ensures r.nodeCount == g.nodeCount
    ensures r.links == g.links + (if star then [Link(Blank, false, [], s, e)] else []) + [Link(Blank, false, [], e, s)]
  {
    var g1 := if star then AddLink(g, Blank, s, e) else g;
    AddLink(g1, Blank, e, s)
  }

  /**
   * The atom a literal character c builds: two new nodes s, s + 1, a blank
   * link appendNode -> s and a link s -> s + 1 whose one range is (c, 0).
   */
  function CharAtom(g: Graph, append: nat, c: char): (r: Graph)
    ensures r.nodeCount == g.nodeCount + 2
    ensures r.links == g.links + [Link(Blank, false, [], append, g.nodeCount),
                                  Link(CharLink, false, [Range(c, '\0')], g.nodeCount, g.nodeCount + 1)]
  {
    var s := g.nodeCount;
    var g1 := AddLink(AddLink(AddNode(AddNode(g)), Blank, append, s), CharLink, s, s + 1);
    assert g1.links == g.links + [Link(Blank, false, [], append, s), Link(CharLink, false, [], s, s + 1)];
    assert [] + [Range(c, '\0')] == [Range(c, '\0')];
    AddRange(g1, |g.links| + 1, c, '\0')
  }

  /**
   * What '[' builds before its ranges are read: two new nodes s, s + 1, a
   * blank link appendNode -> s and an empty character link s -> s + 1, the
   * class link.
   */
  function ClassAtom(g: Graph, append: nat): (r: Graph)
    ensures r.nodeCount == g.nodeCount + 2
    ensures r.links == g.links + [Link(Blank, false, [], append, g.nodeCount),
                                  Link(CharLink, false, [], g.nodeCount, g.nodeCount + 1)]
  {
    var s := g.nodeCount;
    AddLink(AddLink(AddNode(AddNode(g)), Blank, append, s), CharLink, s, s + 1)
  }

  // ----- What each building step does to the node lists -----

  /**
   * dynRegexLinkCreate puts the new link on its source node's list and on no
   * other; a link between existing nodes keeps the graph closed.
   */
  lemma AddLinkNodeLists(g: Graph, kind: LinkType, src: nat, dst: nat, n: nat)
    ensures Outgoing(AddLink(g, kind, src, dst).links, n) == Outgoing(g.links, n) + if src == n then [|g.links|] else []
    ensures Closed(g) && src < g.nodeCount && dst < g.nodeCount ==> Closed(AddLink(g, kind, src, dst))
  {
    OutgoingAppend(g.links, Link(kind, false, [], src, dst), n);
  }

  /** A new node has no links yet, and joining it to the graph keeps it closed. */
  lemma AddNodeNodeLists(g: Graph)
    requires Closed(g)
    ensures Closed(AddNode(g)) && Outgoing(AddNode(g).links, g.nodeCount) == []
  {
    OutgoingOfNewNode(g.links, g.nodeCount);
  }

  /**
   * Adding a range or setting `not` changes no node's list of links, and
   * keeps every link between existing nodes.
   */
  lemma RangesKeepNodeLists(g: Graph, l: nat, c1: char, c2: char, n: nat)
    requires l < |g.links|
    ensures Outgoing(AddRange(g, l, c1, c2).links, n) == Outgoing(g.links, n)
    ensures Outgoing(SetNot(g, l).links, n) == Outgoing(g.links, n)
    ensures Closed(g) ==> Closed(AddRange(g, l, c1, c2)) && Closed(SetNot(g, l))
  {
    OutgoingKeepsSources(g.links, AddRange(g, l, c1, c2).links, n);
    OutgoingKeepsSources(g.links, SetNot(g, l).links, n);
  }

  /**
   * The closing link goes on appendNode's list and on no other, it is a
   * blank link into the end node, and it joins existing nodes.
   */
  lemma FinishNodeLists(g: Graph, append: nat, end: nat, pos: nat, n: nat)
    ensures Outgoing(Finish(g, append, end, pos).g.links, n) ==
            Outgoing(g.links, n) + if n == append then [|g.links|] else []
    ensures EndsAt(Finish(g, append, end, pos), end)
    ensures Closed(g) && append < g.nodeCount && end < g.nodeCount ==> Closed(Finish(g, append, end, pos).g)
  {
    AddLinkNodeLists(g, Blank, append, end, n);
  }

  /**
   * A repeat puts its s -> e link ('*' only) on s's list and its e -> s link
   * on e's list, in that order, and keeps the graph closed.
   */
  lemma RepeatedNodeLists(g: Graph, star: bool, s: nat, e: nat, n: nat)
    ensures Outgoing(Repeated(g, star, s, e).links, n) ==
            Outgoing(g.links, n) + (if star && n == s then [|g.links|] else []) +
            (if n == e then [|g.links| + if star then 1 else 0] else [])
    ensures Closed(g) && s < g.nodeCount && e < g.nodeCount ==> Closed(Repeated(g, star, s, e))
  {
    if star {
      var g1 := AddLink(g, Blank, s, e);
      AddLinkNodeLists(g, Blank, s, e, n);
      AddLinkNodeLists(g1, Blank, e, s, n);
    } else {
      AddLinkNodeLists(g, Blank, e, s, n);
    }
  }

  /**
   * A literal's atom puts its entry link on appendNode's list and its
   * character link on the first new node's list.
   */
  lemma CharAtomNodeLists(g: Graph, append: nat, c: char, n: nat)
    ensures Outgoing(CharAtom(g, append, c).links, n) ==
            Outgoing(g.links, n) + (if n == append then [|g.links|] else []) +
            (if n == g.nodeCount then [|g.links| + 1] else [])
  {
    var s := g.nodeCount;
    var g3 := AddLink(AddNode(AddNode(g)), Blank, append, s);
    var g4 := AddLink(g3, CharLink, s, s + 1);
    assert CharAtom(g, append, c) == AddRange(g4, |g.links| + 1, c, '\0');
    AddLinkNodeLists(AddNode(AddNode(g)), Blank, append, s, n);
    AddLinkNodeLists(g3, CharLink, s, s + 1, n);
    RangesKeepNodeLists(g4, |g.links| + 1, c, '\0', n);
  }

  /** Started closed from an existing appendNode, a literal's atom keeps the graph closed. */
  lemma CharAtomKeepsClosed(g: Graph, append: nat, c: char)
    requires Closed(g) && append < g.nodeCount
    ensures Closed(CharAtom(g, append, c))
  {
    var r := CharAtom(g, append, c);
    forall k | 0 <= k < |r.links|
      ensures r.links[k].src < r.nodeCount && r.links[k].dst < r.nodeCount
    {
      if k < |g.links| {
        assert r.links[k] == g.links[k];
      }
    }
  }

  /** In a closed graph, the second node of a literal's atom lists no link. */
  lemma CharAtomEndHasNoLinks(g: Graph, append: nat, c: char)
    requires Closed(g) && append < g.nodeCount
    ensures Outgoing(CharAtom(g, append, c).links, g.nodeCount + 1) == []
  {
    CharAtomNodeLists(g, append, c, g.nodeCount + 1);
    OutgoingOfNewNode(g.links, g.nodeCount + 1);
  }

  /** The same for the atom '[' builds, whose class link is still empty. */
  lemma ClassAtomNodeLists(g: Graph, append: nat, n: nat)
    ensures Outgoing(ClassAtom(g, append).links, n) ==
            Outgoing(g.links, n) + (if n == append then [|g.links|] else []) +
            (if n == g.nodeCount then [|g.links| + 1] else [])
  {
    var s := g.nodeCount;
    var g3 := AddLink(AddNode(AddNode(g)), Blank, append, s);
    assert ClassAtom(g, append) == AddLink(g3, CharLink, s, s + 1);
    AddLinkNodeLists(AddNode(AddNode(g)), Blank, append, s, n);
    AddLinkNodeLists(g3, CharLink, s, s + 1, n);
  }

  /** Started closed from an existing appendNode, the atom of '[' keeps the graph closed. */
  lemma ClassAtomKeepsClosed(g: Graph, append: nat)
    requires Closed(g) && append < g.nodeCount
    ensures Closed(ClassAtom(g, append))
  {
    var r := ClassAtom(g, append);
    forall k | 0 <= k < |r.links|
      ensures r.links[k].src < r.nodeCount && r.links[k].dst < r.nodeCount
    {
      if k < |g.links| {
        assert r.links[k] == g.links[k];
      }
    }
  }

  /** In a closed graph, the second node of the atom of '[' lists no link. */
  lemma ClassAtomEndHasNoLinks(g: Graph, append: nat)
    requires Closed(g) && append < g.nodeCount
    ensures Outgoing(ClassAtom(g, append).links, g.nodeCount + 1) == []
  {
    ClassAtomNodeLists(g, append, g.nodeCount + 1);
    OutgoingOfNewNode(g.links, g.nodeCount + 1);
  }

  /**
   * dynRegexParse's loop from pos on: `append` is appendNode, `last` the
   * (lastStart, lastEnd) pair, None while they are NULL. Each turn lexes one
   * token and acts on it.
   */
  function Loop(input: string, pos: nat, g: Graph, start: nat, end: nat, endType: Token,
                append: nat, last: Option<(nat, nat)>): (r: Outcome)
    requires endType == Eof || endType == CaptureEnd
    ensures pos <= r.pos && g.nodeCount <= r.g.nodeCount && |g.links| <= |r.g.links|
    decreases |input| - pos, 1
  {
    Step(input, pos, Lex(input, pos).0, g, start, end, endType, append, last)
  }

  /** One turn of the loop, on the token lexed at pos, and the turns after it. */
  function Step(input: string, pos: nat, token: Token, g: Graph, start: nat, end: nat, endType: Token,
                append: nat, last: Option<(nat, nat)>): (r: Outcome)
    requires endType == Eof || endType == CaptureEnd
    requires token == Lex(input, pos).0
    ensures pos <= r.pos && g.nodeCount <= r.g.nodeCount && |g.links| <= |r.g.links|
    decreases |input| - pos, 0
  {
    var p := Lex(input, pos).1;
    match token
    case Eof =>
      if endType == Eof then Finish(g, append, end, p) else Outcome(EarlyEof, g, p)
    case CaptureEnd =>
      // A stray ')' at the top level is read and otherwise ignored.
      if endType == CaptureEnd then Finish(g, append, end, p)
      else Loop(input, p, g, start, end, endType, append, None)
    case CcEnd =>
      // So is a stray ']'.
      Loop(input, p, g, start, end, endType, append, None)
    case Or =>
      var sub := Parse(input, p, g, start, end, endType);
      if sub.result != Ok then sub else Finish(sub.g, append, end, sub.pos)
    case ZeroOrMore =>
      if last.None? then Outcome(InvalidMore, g, p)
      else Loop(input, p, Repeated(g, true, last.value.0, last.value.1), start, end, endType, append, None)
    case OneOrMore =>
      if last.None? then Outcome(InvalidMore, g, p)
      else Loop(input, p, Repeated(g, false, last.value.0, last.value.1), start, end, endType, append, None)
    case CcBegin =>
      var s := g.nodeCount;
      var sub := Class(input, p, ClassAtom(g, append), |g.links| + 1, '\0', false, true);
      if sub.result != Ok then sub
      else Loop(input, sub.pos, sub.g, start, end, endType, s + 1, Some((s, s + 1)))
    case CaptureBegin =>
      var s := g.nodeCount;
      var sub := Parse(input, p, AddNode(AddNode(g)), s, s + 1, CaptureEnd);
      if sub.result != Ok then sub
      else Loop(input, sub.pos, AddLink(sub.g, Blank, append, s), start, end, endType, s + 1, Some((s, s + 1)))
    case Char(c) =>
      var s := g.nodeCount;
      Loop(input, p, CharAtom(g, append, c), start, end, endType, s + 1, Some((s, s + 1)))
  }

  /**
   * The character-class loop of dynRegexParse after '[': `c` is the pending
   * character ('\0' when there is none), `range` is set after "c-", and
   * `first` holds until the first character has been read.
   */
  function Class(input: string, pos: nat, g: Graph, cc: nat, c: char, range: bool, first: bool): (r: Outcome)
    requires cc < |g.links|
    ensures pos <= r.pos && r.g.nodeCount == g.nodeCount && |r.g.links| == |g.links|
    decreases |input| - pos, 1
  {
    ClassStep(input, pos, Lex(input, pos).0, g, cc, c, range, first)
  }

  /** One turn of the class loop, on the token lexed at pos, and the turns after it. */
  function ClassStep(input: string, pos: nat, token: Token, g: Graph, cc: nat, c: char, range: bool, first: bool): (r: Outcome)
    requires cc < |g.links|
    requires token == Lex(input, pos).0
    ensures pos <= r.pos && r.g.nodeCount == g.nodeCount && |r.g.links| == |g.links|
    decreases |input| - pos, 0
  {
    var p := Lex(input, pos).1;
    match token
    case Eof => Outcome(EarlyEof, g, p)
    case CcEnd => Outcome(Ok, if c != '\0' then AddRange(g, cc, c, '\0') else g, p)
    case Char(t) =>
      if t == '^' then
        Class(input, p, if first then SetNot(g, cc) else AddRange(g, cc, t, '\0'), cc, c, range, false)
      else if t == '-' then
        if c != '\0' then Class(input, p, g, cc, c, true, false)
        else Class(input, p, AddRange(g, cc, t, '\0'), cc, c, range, false)
      else if range then Class(input, p, AddRange(g, cc, c, t), cc, '\0', false, false)
      else Class(input, p, if c != '\0' then AddRange(g, cc, c, '\0') else g, cc, t, range, false)
    case _ => Outcome(InvalidCc, g, p)
  }

  /**
   * dynRegex after a successful build: the graph, its start node, and its end
   * node, the one node whose final flag dynRegexCreate sets.
   */
  datatype Nfa = Nfa(g: Graph, start: nat, final: nat)

  /** The start and end nodes dynRegexCreate makes before parsing. */
  function Seeded(): (g: Graph)
    ensures g.nodeCount == 2 && g.links == []
  {
    AddNode(AddNode(Graph(0, [])))
  }

  /**
   * dynRegexCreate: parse the whole input between a start and an end node;
   * on success mark the end node final, on any error there is no regex.
   */
  function Create(input: string): (r: Option<Nfa>)
    ensures r.Some? <==> Parse(input, 0, Seeded(), 0, 1, Eof).result == Ok
    ensures r.Some? ==> r.value == Nfa(Parse(input, 0, Seeded(), 0, 1, Eof).g, 0, 1)
  {
    var out := Parse(input, 0, Seeded(), 0, 1, Eof);
    if out.result != Ok then None else Some(Nfa(out.g, 0, 1))
  }

  // ----- One token at a time -----

  /** Reaching the end of the input ends the top level with a link to the end node, and is EarlyEof inside '('. */
  lemma EndOfInput(input: string, pos: nat, g: Graph, start: nat, end: nat, endType: Token,
                   append: nat, last: Option<(nat, nat)>)
    requires endType == Eof || endType == CaptureEnd
    requires AtEnd(input, pos)
    ensures Loop(input, pos, g, start, end, endType, append, last) ==
            if endType == Eof then Outcome(Ok, Graph(g.nodeCount, g.links + [Link(Blank, false, [], append, end)]), pos)
            else Outcome(EarlyEof, g, pos)
  {
  }

  /**
   * ')' closes a capture with a link from appendNode to the end node; a ')'
   * at the top level, and a ']' anywhere, is skipped and forgets the last atom.
   */
  lemma CloseOrStray(input: string, pos: nat, g: Graph, start: nat, end: nat, endType: Token,
                     append: nat, last: Option<(nat, nat)>)
    requires endType == Eof || endType == CaptureEnd
    requires pos < |input| && (input[pos] == ')' || input[pos] == ']')
    ensures Loop(input, pos, g, start, end, endType, append, last) ==
            if input[pos] == ')' && endType == CaptureEnd
            then Outcome(Ok, Graph(g.nodeCount, g.links + [Link(Blank, false, [], append, end)]), pos + 1)
            else Loop(input, pos + 1, g, start, end, endType, append, None)
  {
    LexSpecials(input, pos);
  }

  /** '|' parses the rest between the same start and end nodes, then links appendNode to the end. */
  lemma OrSharesEnds(input: string, pos: nat, g: Graph, start: nat, end: nat, endType: Token,
                     append: nat, last: Option<(nat, nat)>)
    requires endType == Eof || endType == CaptureEnd
    requires pos < |input| && input[pos] == '|'
    ensures var sub := Parse(input, pos + 1, g, start, end, endType);
            Loop(input, pos, g, start, end, endType, append, last) ==
            if sub.result != Ok then sub
            else Outcome(Ok, Graph(sub.g.nodeCount, sub.g.links + [Link(Blank, false, [], append, end)]), sub.pos)
  {
    LexSpecials(input, pos);
  }

  /** A repeat operator with no atom right before it is InvalidMore, and nothing is built. */
  lemma RepeatNeedsAtom(input: string, pos: nat, g: Graph, start: nat, end: nat, endType: Token, append: nat)
    requires endType == Eof || endType == CaptureEnd
    requires pos < |input| && (input[pos] == '*' || input[pos] == '+')
    ensures Loop(input, pos, g, start, end, endType, append, None) == Outcome(InvalidMore, g, pos + 1)
  {
    LexSpecials(input, pos);
  }

  /**
   * '*' after an atom (s, e) adds the blank links s -> e and e -> s, '+' only
   * e -> s; both then forget the atom and keep appendNode.
   */
  lemma RepeatLinks(input: string, pos: nat, g: Graph, start: nat, end: nat, endType: Token,
                    append: nat, s: nat, e: nat)
    requires endType == Eof || endType == CaptureEnd
    requires pos < |input| && (input[pos] == '*' || input[pos] == '+')
    ensures var star := if input[pos] == '*' then [Link(Blank, false, [], s, e)] else [];
            Loop(input, pos, g, start, end, endType, append, Some((s, e))) ==
            Loop(input, pos + 1, Graph(g.nodeCount, g.links + star + [Link(Blank, false, [], e, s)]), start, end, endType, append, None)
  {
    LexSpecials(input, pos);
  }

  /**
   * '[' adds two nodes s, s + 1, a blank link appendNode -> s and the class
   * link s -> s + 1, whose ranges the class loop then fills in; on success
   * s + 1 becomes appendNode and (s, s + 1) the last atom.
   */
  lemma ClassBetweenNewNodes(input: string, pos: nat, g: Graph, start: nat, end: nat, endType: Token,
                             append: nat, last: Option<(nat, nat)>)
    requires endType == Eof || endType == CaptureEnd
    requires pos < |input| && input[pos] == '['
    ensures var s := g.nodeCount;
            var atom := Graph(s + 2, g.links + [Link(Blank, false, [], append, s), Link(CharLink, false, [], s, s + 1)]);
            var sub := Class(input, pos + 1, atom, |g.links| + 1, '\0', false, true);
            Loop(input, pos, g, start, end, endType, append, last) ==
            if sub.result != Ok then sub
            else Loop(input, sub.pos, sub.g, start, end, endType, s + 1, Some((s, s + 1)))
  {
    LexSpecials(input, pos);
  }

  /**
   * '(' parses up to the matching ')' between two new nodes s, s + 1, then
   * links appendNode to s; s + 1 becomes appendNode and (s, s + 1) the last atom.
   */
  lemma CaptureBetweenNewNodes(input: string, pos: nat, g: Graph, start: nat, end: nat, endType: Token,
                               append: nat, last: Option<(nat, nat)>)
    requires endType == Eof || endType == CaptureEnd
    requires pos < |input| && input[pos] == '('
    ensures var s := g.nodeCount;
            var sub := Parse(input, pos + 1, Graph(s + 2, g.links), s, s + 1, CaptureEnd);
            Loop(input, pos, g, start, end, endType, append, last) ==
            if sub.result != Ok then sub
            else Loop(input, sub.pos, Graph(sub.g.nodeCount, sub.g.links + [Link(Blank, false, [], append, s)]),
                      start, end, endType, s + 1, Some((s, s + 1)))
  {
    LexSpecials(input, pos);
  }

  /**
   * A literal character adds two nodes s, s + 1 and two links: a blank one
   * from appendNode to s and a character link from s to s + 1 whose one range
   * is (c, 0); s + 1 becomes appendNode and (s, s + 1) the last atom.
   */
  lemma CharAddsTwoNodesTwoLinks(input: string, pos: nat, g: Graph, start: nat, end: nat, endType: Token,
                                 append: nat, last: Option<(nat, nat)>)
    requires endType == Eof || endType == CaptureEnd
    requires pos < |input| && input[pos] != '\0' && !Special(input[pos])
    ensures var s := g.nodeCount;
            var added := [Link(Blank, false, [], append, s), Link(CharLink, false, [Range(input[pos], '\0')], s, s + 1)];
            Loop(input, pos, g, start, end, endType, append, last) ==
            Loop(input, pos + 1, Graph(s + 2, g.links + added), start, end, endType, s + 1, Some((s, s + 1)))
  {
    assert Lex(input, pos) == (Char(input[pos]), pos + 1);
  }

  /** A repeat right after a repeat is InvalidMore: the first one clears lastStart and lastEnd. */
  lemma RepeatAfterRepeat(input: string, pos: nat, g: Graph, start: nat, end: nat, endType: Token,
                          append: nat, last: Option<(nat, nat)>)
    requires endType == Eof || endType == CaptureEnd
    requires pos + 1 < |input| && (input[pos] == '*' || input[pos] == '+') && (input[pos + 1] == '*' || input[pos + 1] == '+')
    ensures Loop(input, pos, g, start, end, endType, append, last).result == InvalidMore
  {
    if last.Some? {
      RepeatLinks(input, pos, g, start, end, endType, append, last.value.0, last.value.1);
      var star := if input[pos] == '*' then [Link(Blank, false, [], last.value.0, last.value.1)] else [];
      RepeatNeedsAtom(input, pos + 1, Graph(g.nodeCount, g.links + star + [Link(Blank, false, [], last.value.1, last.value.0)]),
                      start, end, endType, append);
    } else {
      RepeatNeedsAtom(input, pos, g, start, end, endType, append);
    }
  }

  // ----- Properties of whole parses -----

  /** A successful outcome whose last link is a blank link into node end. */
  predicate EndsAt(r: Outcome, end: nat)
  {
    r.result == Ok ==> |r.g.links| > 0 && r.g.links[|r.g.links| - 1].kind == Blank &&
                       r.g.links[|r.g.links| - 1].dst == end
  }

  /** A character class changes no link but its own, and of its own only the ranges and the `not` flag. */
  lemma {:induction false} ClassTouchesOnlyItsLink(input: string, pos: nat, g: Graph, cc: nat, c: char, range: bool, first: bool)
    requires cc < |g.links|
    ensures var r := Class(input, pos, g, cc, c, range, first).g;
            (forall k :: 0 <= k < |g.links| && k != cc ==> r.links[k] == g.links[k]) &&
            r.links[cc].kind == g.links[cc].kind && r.links[cc].src == g.links[cc].src && r.links[cc].dst == g.links[cc].dst
    decreases |input| - pos
  {
    var (token, p) := Lex(input, pos);
    match token
    case Eof =>
    case CcEnd =>
    case Char(t) =>
      if t == '^' {
        ClassTouchesOnlyItsLink(input, p, if first then SetNot(g, cc) else AddRange(g, cc, t, '\0'), cc, c, range, false);
      } else if t == '-' {
        if c != '\0' {
          ClassTouchesOnlyItsLink(input, p, g, cc, c, true, false);
        } else {
          ClassTouchesOnlyItsLink(input, p, AddRange(g, cc, t, '\0'), cc, c, range, false);
        }
      } else if range {
        ClassTouchesOnlyItsLink(input, p, AddRange(g, cc, c, t), cc, '\0', false, false);
      } else {
        ClassTouchesOnlyItsLink(input, p, if c != '\0' then AddRange(g, cc, c, '\0') else g, cc, t, range, false);
      }
    case _ =>
  }

  /**
   * On success the last link built is a blank link into the end node: the
   * link from appendNode that the closing token, or the end of the input, adds.
   */
  lemma {:induction false} OkEndsWithLinkToEnd(input: string, pos: nat, g: Graph, start: nat, end: nat, endType: Token,
                                               append: nat, last: Option<(nat, nat)>, r: Outcome)
    requires endType == Eof || endType == CaptureEnd
    requires r == Loop(input, pos, g, start, end, endType, append, last)
    ensures EndsAt(r, end)
    decreases |input| - pos, 1
  {
    if AtEnd(input, pos) {
      EndOfInput(input, pos, g, start, end, endType, append, last);
    } else if input[pos] == ')' || input[pos] == ']' {
      OkEndsWithLinkToEndAtClose(input, pos, g, start, end, endType, append, last, r);
    } else if input[pos] == '|' {
      OkEndsWithLinkToEndAtOr(input, pos, g, start, end, endType, append, last, r);
    } else if input[pos] == '*' || input[pos] == '+' {
      OkEndsWithLinkToEndAtRepeat(input, pos, g, start, end, endType, append, last, r);
    } else if input[pos] == '[' {
      OkEndsWithLinkToEndAtClass(input, pos, g, start, end, endType, append, last, r);
    } else if input[pos] == '(' {
      OkEndsWithLinkToEndAtCapture(input, pos, g, start, end, endType, append, last, r);
    } else {
      OkEndsWithLinkToEndAtChar(input, pos, g, start, end, endType, append, last, r);
    }
  }

  /** The same, at a ')' or a ']'. */
  lemma {:induction false} OkEndsWithLinkToEndAtClose(input: string, pos: nat, g: Graph, start: nat, end: nat, endType: Token,
                                                      append: nat, last: Option<(nat, nat)>, r: Outcome)
    requires endType == Eof || endType == CaptureEnd
    requires r == Loop(input, pos, g, start, end, endType, append, last)
    requires pos < |input| && (input[pos] == ')' || input[pos] == ']')
    ensures EndsAt(r, end)
    decreases |input| - pos, 0
  {
    CloseOrStray(input, pos, g, start, end, endType, append, last);
    if !(input[pos] == ')' && endType == CaptureEnd) {
      OkEndsWithLinkToEnd(input, pos + 1, g, start, end, endType, append, None,
                          Loop(input, pos + 1, g, start, end, endType, append, None));
    }
  }

  /** The same, at a '|'. */
  lemma {:induction false} OkEndsWithLinkToEndAtOr(input: string, pos: nat, g: Graph, start: nat, end: nat, endType: Token,
                                                   append: nat, last: Option<(nat, nat)>, r: Outcome)
    requires endType == Eof || endType == CaptureEnd
    requires r == Loop(input, pos, g, start, end, endType, append, last)
    requires pos < |input| && input[pos] == '|'
    ensures EndsAt(r, end)
    decreases |input| - pos, 0
  {
    OrSharesEnds(input, pos, g, start, end, endType, append, last);
  }

  /** The same, at a '*' or a '+'. */
  lemma {:induction false} OkEndsWithLinkToEndAtRepeat(input: string, pos: nat, g: Graph, start: nat, end: nat, endType: Token,
                                                       append: nat, last: Option<(nat, nat)>, r: Outcome)
    requires endType == Eof || endType == CaptureEnd
    requires r == Loop(input, pos, g, start, end, endType, append, last)
    requires pos < |input| && (input[pos] == '*' || input[pos] == '+')
    ensures EndsAt(r, end)
    decreases |input| - pos, 0
  {
    if last.None? {
      RepeatNeedsAtom(input, pos, g, start, end, endType, append);
    } else {
      var (s, e) := last.value;
      RepeatLinks(input, pos, g, start, end, endType, append, s, e);
      var g2 := Graph(g.nodeCount, g.links + (if input[pos] == '*' then [Link(Blank, false, [], s, e)] else []) + [Link(Blank, false, [], e, s)]);
      OkEndsWithLinkToEnd(input, pos + 1, g2, start, end, endType, append, None,
                          Loop(input, pos + 1, g2, start, end, endType, append, None));
    }
  }

  /** The same, at a '['. */
  lemma {:induction false} OkEndsWithLinkToEndAtClass(input: string, pos: nat, g: Graph, start: nat, end: nat, endType: Token,
                                                      append: nat, last: Option<(nat, nat)>, r: Outcome)
    requires endType == Eof || endType == CaptureEnd
    requires r == Loop(input, pos, g, start, end, endType, append, last)
    requires pos < |input| && input[pos] == '['
    ensures EndsAt(r, end)
    decreases |input| - pos, 0
  {
    ClassBetweenNewNodes(input, pos, g, start, end, endType, append, last);
    var s := g.nodeCount;
    var atom := Graph(s + 2, g.links + [Link(Blank, false, [], append, s), Link(CharLink, false, [], s, s + 1)]);
    var sub := Class(input, pos + 1, atom, |g.links| + 1, '\0', false, true);
    if sub.result == Ok {
      OkEndsWithLinkToEnd(input, sub.pos, sub.g, start, end, endType, s + 1, Some((s, s + 1)),
                          Loop(input, sub.pos, sub.g, start, end, endType, s + 1, Some((s, s + 1))));
    }
  }

  /** The same, at a '('. */
  lemma {:induction false} OkEndsWithLinkToEndAtCapture(input: string, pos: nat, g: Graph, start: nat, end: nat, endType: Token,
                                                        append: nat, last: Option<(nat, nat)>, r: Outcome)
    requires endType == Eof || endType == CaptureEnd
    requires r == Loop(input, pos, g, start, end, endType, append, last)
    requires pos < |input| && input[pos] == '('
    ensures EndsAt(r, end)
    decreases |input| - pos, 0
  {
    CaptureBetweenNewNodes(input, pos, g, start, end, endType, append, last);
    var s := g.nodeCount;
    var sub := Parse(input, pos + 1, Graph(s + 2, g.links), s, s + 1, CaptureEnd);
    if sub.result == Ok {
      var g2 := Graph(sub.g.nodeCount, sub.g.links + [Link(Blank, false, [], append, s)]);
      OkEndsWithLinkToEnd(input, sub.pos, g2, start, end, endType, s + 1, Some((s, s + 1)),
                          Loop(input, sub.pos, g2, start, end, endType, s + 1, Some((s, s + 1))));
    }
  }

  /** The same, at a literal character. */
  lemma {:induction false} OkEndsWithLinkToEndAtChar(input: string, pos: nat, g: Graph, start: nat, end: nat, endType: Token,
                                                     append: nat, last: Option<(nat, nat)>, r: Outcome)
    requires endType == Eof || endType == CaptureEnd
    requires r == Loop(input, pos, g, start, end, endType, append, last)
    requires pos < |input| && input[pos] != '\0' && !Special(input[pos])
    ensures EndsAt(r, end)
    decreases |input| - pos, 0
  {
    CharAddsTwoNodesTwoLinks(input, pos, g, start, end, endType, append, last);
    var s := g.nodeCount;
    var g2 := Graph(s + 2, g.links + [Link(Blank, false, [], append, s), Link(CharLink, false, [Range(input[pos], '\0')], s, s + 1)]);
    OkEndsWithLinkToEnd(input, pos + 1, g2, start, end, endType, s + 1, Some((s, s + 1)),
                        Loop(input, pos + 1, g2, start, end, endType, s + 1, Some((s, s + 1))));
  }

  /** So a character class keeps the graph closed. */
  lemma {:induction false} ClassKeepsClosed(input: string, pos: nat, g: Graph, cc: nat, c: char, range: bool, first: bool)
    requires cc < |g.links| && Closed(g)
    ensures Closed(Class(input, pos, g, cc, c, range, first).g)
  {
    ClassTouchesOnlyItsLink(input, pos, g, cc, c, range, first);
  }

  /**
   * Parsing keeps the graph closed: started from existing nodes, every link
   * it adds joins nodes that exist.
   */
  lemma {:induction false} LoopKeepsClosed(input: string, pos: nat, g: Graph, start: nat, end: nat, endType: Token,
                                           append: nat, last: Option<(nat, nat)>, r: Outcome)
    requires endType == Eof || endType == CaptureEnd
    requires Closed(g) && Anchored(g, start, end, append, last)
    requires r == Loop(input, pos, g, start, end, endType, append, last)
    ensures Closed(r.g)
    decreases |input| - pos, 1
  {
    if AtEnd(input, pos) {
      EndOfInput(input, pos, g, start, end, endType, append, last);
    } else if input[pos] == ')' || input[pos] == ']' {
      LoopKeepsClosedAtClose(input, pos, g, start, end, endType, append, last, r);
    } else if input[pos] == '|' {
      LoopKeepsClosedAtOr(input, pos, g, start, end, endType, append, last, r);
    } else if input[pos] == '*' || input[pos] == '+' {
      LoopKeepsClosedAtRepeat(input, pos, g, start, end, endType, append, last, r);
    } else if input[pos] == '[' {
      LoopKeepsClosedAtClass(input, pos, g, start, end, endType, append, last, r);
    } else if input[pos] == '(' {
      LoopKeepsClosedAtCapture(input, pos, g, start, end, endType, append, last, r);
    } else {
      LoopKeepsClosedAtChar(input, pos, g, start, end, endType, append, last, r);
    }
  }

  /** The same, at a ')' or a ']'. */
  lemma {:induction false} LoopKeepsClosedAtClose(input: string, pos: nat, g: Graph, start: nat, end: nat, endType: Token,
                                                  append: nat, last: Option<(nat, nat)>, r: Outcome)
    requires endType == Eof || endType == CaptureEnd
    requires Closed(g) && Anchored(g, start, end, append, last)
    requires r == Loop(input, pos, g, start, end, endType, append, last)
    requires pos < |input| && (input[pos] == ')' || input[pos] == ']')
    ensures Closed(r.g)
    decreases |input| - pos, 0
  {
    CloseOrStray(input, pos, g, start, end, endType, append, last);
    if !(input[pos] == ')' && endType == CaptureEnd) {
      LoopKeepsClosed(input, pos + 1, g, start, end, endType, append, None,
                      Loop(input, pos + 1, g, start, end, endType, append, None));
    }
  }

  /** The same, at a '|'. */
  lemma {:induction false} LoopKeepsClosedAtOr(input: string, pos: nat, g: Graph, start: nat, end: nat, endType: Token,
                                               append: nat, last: Option<(nat, nat)>, r: Outcome)
    requires endType == Eof || endType == CaptureEnd
    requires Closed(g) && Anchored(g, start, end, append, last)
    requires r == Loop(input, pos, g, start, end, endType, append, last)
    requires pos < |input| && input[pos] == '|'
    ensures Closed(r.g)
    decreases |input| - pos, 0
  {
    OrSharesEnds(input, pos, g, start, end, endType, append, last);
    LoopKeepsClosed(input, pos + 1, g, start, end, endType, start, None,
                    Parse(input, pos + 1, g, start, end, endType));
  }

  /** The same, at a '*' or a '+'. */
  lemma {:induction false} LoopKeepsClosedAtRepeat(input: string, pos: nat, g: Graph, start: nat, end: nat, endType: Token,
                                                   append: nat, last: Option<(nat, nat)>, r: Outcome)
    requires endType == Eof || endType == CaptureEnd
    requires Closed(g) && Anchored(g, start, end, append, last)
    requires r == Loop(input, pos, g, start, end, endType, append, last)
    requires pos < |input| && (input[pos] == '*' || input[pos] == '+')
    ensures Closed(r.g)
    decreases |input| - pos, 0
  {
    if last.None? {
      RepeatNeedsAtom(input, pos, g, start, end, endType, append);
    } else {
      var (s, e) := last.value;
      RepeatLinks(input, pos, g, start, end, endType, append, s, e);
      var g2 := Graph(g.nodeCount, g.links + (if input[pos] == '*' then [Link(Blank, false, [], s, e)] else []) + [Link(Blank, false, [], e, s)]);
      LoopKeepsClosed(input, pos + 1, g2, start, end, endType, append, None,
                      Loop(input, pos + 1, g2, start, end, endType, append, None));
    }
  }

  /** The same, at a '['. */
  lemma {:induction false} LoopKeepsClosedAtClass(input: string, pos: nat, g: Graph, start: nat, end: nat, endType: Token,
                                                  append: nat, last: Option<(nat, nat)>, r: Outcome)
    requires endType == Eof || endType == CaptureEnd
    requires Closed(g) && Anchored(g, start, end, append, last)
    requires r == Loop(input, pos, g, start, end, endType, append, last)
    requires pos < |input| && input[pos] == '['
    ensures Closed(r.g)
    decreases |input| - pos, 0
  {
    ClassBetweenNewNodes(input, pos, g, start, end, endType, append, last);
    var s := g.nodeCount;
    var atom := Graph(s + 2, g.links + [Link(Blank, false, [], append, s), Link(CharLink, false, [], s, s + 1)]);
    ClassKeepsClosed(input, pos + 1, atom, |g.links| + 1, '\0', false, true);
    var sub := Class(input, pos + 1, atom, |g.links| + 1, '\0', false, true);
    if sub.result == Ok {
      LoopKeepsClosed(input, sub.pos, sub.g, start, end, endType, s + 1, Some((s, s + 1)),
                      Loop(input, sub.pos, sub.g, start, end, endType, s + 1, Some((s, s + 1))));
    }
  }

  /** The same, at a '('. */
  lemma {:induction false} LoopKeepsClosedAtCapture(input: string, pos: nat, g: Graph, start: nat, end: nat, endType: Token,
                                                    append: nat, last: Option<(nat, nat)>, r: Outcome)
    requires endType == Eof || endType == CaptureEnd
    requires Closed(g) && Anchored(g, start, end, append, last)
    requires r == Loop(input, pos, g, start, end, endType, append, last)
    requires pos < |input| && input[pos] == '('
    ensures Closed(r.g)
    decreases |input| - pos, 0
  {
    CaptureBetweenNewNodes(input, pos, g, start, end, endType, append, last);
    var s := g.nodeCount;
    var sub := Parse(input, pos + 1, Graph(s + 2, g.links), s, s + 1, CaptureEnd);
    LoopKeepsClosed(input, pos + 1, Graph(s + 2, g.links), s, s + 1, CaptureEnd, s, None, sub);
    if sub.result == Ok {
      var g2 := Graph(sub.g.nodeCount, sub.g.links + [Link(Blank, false, [], append, s)]);
      LoopKeepsClosed(input, sub.pos, g2, start, end, endType, s + 1, Some((s, s + 1)),
                      Loop(input, sub.pos, g2, start, end, endType, s + 1, Some((s, s + 1))));
    }
  }

  /** The same, at a literal character. */
  lemma {:induction false} LoopKeepsClosedAtChar(input: string, pos: nat, g: Graph, start: nat, end: nat, endType: Token,
                                                 append: nat, last: Option<(nat, nat)>, r: Outcome)
    requires endType == Eof || endType == CaptureEnd
    requires Closed(g) && Anchored(g, start, end, append, last)
    requires r == Loop(input, pos, g, start, end, endType, append, last)
    requires pos < |input| && input[pos] != '\0' && !Special(input[pos])
    ensures Closed(r.g)
    decreases |input| - pos, 0
  {
    CharAddsTwoNodesTwoLinks(input, pos, g, start, end, endType, append, last);
    var s := g.nodeCount;
    var g2 := Graph(s + 2, g.links + [Link(Blank, false, [], append, s), Link(CharLink, false, [Range(input[pos], '\0')], s, s + 1)]);
    LoopKeepsClosed(input, pos + 1, g2, start, end, endType, s + 1, Some((s, s + 1)),
                    Loop(input, pos + 1, g2, start, end, endType, s + 1, Some((s, s + 1))));
  }

  /**
   * Inside parentheses, an input with no ')' left never parses: the loop can
   * only stop at Eof, which is EarlyEof there, or at an earlier error.
   */
  lemma {:induction false} UnclosedCaptureFails(input: string, pos: nat, g: Graph, start: nat, end: nat, 
                                                append: nat, last: Option<(nat, nat)>, r: Outcome)
    requires forall i :: pos <= i < |input| ==> input[i] != ')'
    requires r == Loop(input, pos, g, start, end, CaptureEnd, append, last)
    ensures r.result != Ok
    decreases |input| - pos, 1
  {
    if AtEnd(input, pos) {
      EndOfInput(input, pos, g, start, end, CaptureEnd, append, last);
    } else if input[pos] == ']' {
      UnclosedCaptureFailsAtClose(input, pos, g, start, end, append, last, r);
    } else if input[pos] == '|' {
      UnclosedCaptureFailsAtOr(input, pos, g, start, end, append, last, r);
    } else if input[pos] == '*' || input[pos] == '+' {
      UnclosedCaptureFailsAtRepeat(input, pos, g, start, end, append, last, r);
    } else if input[pos] == '[' {
      UnclosedCaptureFailsAtClass(input, pos, g, start, end, append, last, r);
    } else if input[pos] == '(' {
      UnclosedCaptureFailsAtCapture(input, pos, g, start, end, append, last, r);
    } else {
      UnclosedCaptureFailsAtChar(input, pos, g, start, end, append, last, r);
    }
  }

  /** The same, at a stray ']'. */
  lemma {:induction false} UnclosedCaptureFailsAtClose(input: string, pos: nat, g: Graph, start: nat, end: nat, 
                                                       append: nat, last: Option<(nat, nat)>, r: Outcome)
    requires forall i :: pos <= i < |input| ==> input[i] != ')'
    requires r == Loop(input, pos, g, start, end, CaptureEnd, append, last)
    requires pos < |input| && (input[pos] == ']')
    ensures r.result != Ok
    decreases |input| - pos, 0
  {
    CloseOrStray(input, pos, g, start, end, CaptureEnd, append, last);
    UnclosedCaptureFails(input, pos + 1, g, start, end, append, None,
                         Loop(input, pos + 1, g, start, end, CaptureEnd, append, None));
  }

  /** The same, at a '|'. */
  lemma {:induction false} UnclosedCaptureFailsAtOr(input: string, pos: nat, g: Graph, start: nat, end: nat, 
                                                    append: nat, last: Option<(nat, nat)>, r: Outcome)
    requires forall i :: pos <= i < |input| ==> input[i] != ')'
    requires r == Loop(input, pos, g, start, end, CaptureEnd, append, last)
    requires pos < |input| && input[pos] == '|'
    ensures r.result != Ok
    decreases |input| - pos, 0
  {
    OrSharesEnds(input, pos, g, start, end, CaptureEnd, append, last);
    UnclosedCaptureFails(input, pos + 1, g, start, end, start, None,
                         Parse(input, pos + 1, g, start, end, CaptureEnd));
  }

  /** The same, at a '*' or a '+'. */
  lemma {:induction false} UnclosedCaptureFailsAtRepeat(input: string, pos: nat, g: Graph, start: nat, end: nat, 
                                                        append: nat, last: Option<(nat, nat)>, r: Outcome)
    requires forall i :: pos <= i < |input| ==> input[i] != ')'
    requires r == Loop(input, pos, g, start, end, CaptureEnd, append, last)
    requires pos < |input| && (input[pos] == '*' || input[pos] == '+')
    ensures r.result != Ok
    decreases |input| - pos, 0
  {
    if last.None? {
      RepeatNeedsAtom(input, pos, g, start, end, CaptureEnd, append);
    } else {
      var (s, e) := last.value;
      RepeatLinks(input, pos, g, start, end, CaptureEnd, append, s, e);
      var g2 := Graph(g.nodeCount, g.links + (if input[pos] == '*' then [Link(Blank, false, [], s, e)] else []) + [Link(Blank, false, [], e, s)]);
      UnclosedCaptureFails(input, pos + 1, g2, start, end, append, None,
                           Loop(input, pos + 1, g2, start, end, CaptureEnd, append, None));
    }
  }

  /** The same, at a '['. */
  lemma {:induction false} UnclosedCaptureFailsAtClass(input: string, pos: nat, g: Graph, start: nat, end: nat, 
                                                       append: nat, last: Option<(nat, nat)>, r: Outcome)
    requires forall i :: pos <= i < |input| ==> input[i] != ')'
    requires r == Loop(input, pos, g, start, end, CaptureEnd, append, last)
    requires pos < |input| && input[pos] == '['
    ensures r.result != Ok
    decreases |input| - pos, 0
  {
    ClassBetweenNewNodes(input, pos, g, start, end, CaptureEnd, append, last);
    var s := g.nodeCount;
    var atom := Graph(s + 2, g.links + [Link(Blank, false, [], append, s), Link(CharLink, false, [], s, s + 1)]);
    var sub := Class(input, pos + 1, atom, |g.links| + 1, '\0', false, true);
    if sub.result == Ok {
      UnclosedCaptureFails(input, sub.pos, sub.g, start, end, s + 1, Some((s, s + 1)),
                           Loop(input, sub.pos, sub.g, start, end, CaptureEnd, s + 1, Some((s, s + 1))));
    }
  }

  /** The same, at a '('. */
  lemma {:induction false} UnclosedCaptureFailsAtCapture(input: string, pos: nat, g: Graph, start: nat, end: nat, 
                                                         append: nat, last: Option<(nat, nat)>, r: Outcome)
    requires forall i :: pos <= i < |input| ==> input[i] != ')'
    requires r == Loop(input, pos, g, start, end, CaptureEnd, append, last)
    requires pos < |input| && input[pos] == '('
    ensures r.result != Ok
    decreases |input| - pos, 0
  {
    CaptureBetweenNewNodes(input, pos, g, start, end, CaptureEnd, append, last);
    var s := g.nodeCount;
    var sub := Parse(input, pos + 1, Graph(s + 2, g.links), s, s + 1, CaptureEnd);
    UnclosedCaptureFails(input, pos + 1, Graph(s + 2, g.links), s, s + 1, s, None, sub);
  }

  /** The same, at a literal character. */
  lemma {:induction false} UnclosedCaptureFailsAtChar(input: string, pos: nat, g: Graph, start: nat, end: nat, 
                                                      append: nat, last: Option<(nat, nat)>, r: Outcome)
    requires forall i :: pos <= i < |input| ==> input[i] != ')'
    requires r == Loop(input, pos, g, start, end, CaptureEnd, append, last)
    requires pos < |input| && input[pos] != '\0' && !Special(input[pos])
    ensures r.result != Ok
    decreases |input| - pos, 0
  {
    CharAddsTwoNodesTwoLinks(input, pos, g, start, end, CaptureEnd, append, last);
    var s := g.nodeCount;
    var g2 := Graph(s + 2, g.links + [Link(Blank, false, [], append, s), Link(CharLink, false, [Range(input[pos], '\0')], s, s + 1)]);
    UnclosedCaptureFails(input, pos + 1, g2, start, end, s + 1, Some((s, s + 1)),
                         Loop(input, pos + 1, g2, start, end, CaptureEnd, s + 1, Some((s, s + 1))));
  }

  /** So a regex with an unclosed '(' is not created. */
  lemma UnclosedCaptureHasNoRegex(input: string)
    requires |input| > 0 && input[0] == '(' && forall i :: 0 <= i < |input| ==> input[i] != ')'
    ensures Create(input) == None
  {
    LexSpecials(input, 0);
    CaptureBetweenNewNodes(input, 0, Seeded(), 0, 1, Eof, 0, None);
    UnclosedCaptureFails(input, 1, Graph(4, []), 2, 3, 2, None, Parse(input, 1, Graph(4, []), 2, 3, CaptureEnd));
  }

  /** A successful regex is a closed graph whose last link leads into the final node. */
  lemma CreatedIsClosed(input: string)
    ensures Create(input).Some? ==> Closed(Create(input).value.g) && EndsAt(Outcome(Ok, Create(input).value.g, 0), 1)
  {
    var out := Parse(input, 0, Seeded(), 0, 1, Eof);
    LoopKeepsClosed(input, 0, Seeded(), 0, 1, Eof, 0, None, out);
    OkEndsWithLinkToEnd(input, 0, Seeded(), 0, 1, Eof, 0, None, out);
  }

  // ----- Character classes -----

  // The rules of the class loop, for any position and any class state: the
  // pending character c ('\0' when none), the `range` flag set after "c-",
  // and the `first` flag.

  /** ']' ends the class: a pending character is added as (c, 0), and an open "c-" keeps only c. */
  lemma ClassClose(input: string, pos: nat, g: Graph, cc: nat, c: char, range: bool, first: bool)
    requires cc < |g.links| && pos < |input| && input[pos] == ']'
    ensures Class(input, pos, g, cc, c, range, first) ==
            Outcome(Ok, if c != '\0' then AddRange(g, cc, c, '\0') else g, pos + 1)
  {
    LexSpecials(input, pos);
  }

  /** A '^' read first negates the class; any later '^' is the literal range ('^', 0), the pending character kept. */
  lemma ClassCaret(input: string, pos: nat, g: Graph, cc: nat, c: char, range: bool, first: bool)
    requires cc < |g.links| && pos < |input| && input[pos] == '^'
    ensures first ==> Class(input, pos, g, cc, c, range, first) == Class(input, pos + 1, SetNot(g, cc), cc, c, range, false)
    ensures !first ==>
              Class(input, pos, g, cc, c, range, first) == Class(input, pos + 1, AddRange(g, cc, '^', '\0'), cc, c, range, false)
  {
  }

  /** A '-' after a pending character opens a range; with nothing pending it is the literal range ('-', 0). */
  lemma ClassDash(input: string, pos: nat, g: Graph, cc: nat, c: char, range: bool, first: bool)
    requires cc < |g.links| && pos < |input| && input[pos] == '-'
    ensures c != '\0' ==> Class(input, pos, g, cc, c, range, first) == Class(input, pos + 1, g, cc, c, true, false)
    ensures c == '\0' ==>
              Class(input, pos, g, cc, c, range, first) == Class(input, pos + 1, AddRange(g, cc, '-', '\0'), cc, c, range, false)
  {
  }

  /** Any other ordinary character y: after "c-" it closes the range (c, y); otherwise it flushes c as (c, 0) and becomes pending. */
  lemma ClassCharacter(input: string, pos: nat, g: Graph, cc: nat, c: char, range: bool, first: bool)
    requires cc < |g.links| && !AtEnd(input, pos) && !Special(input[pos]) && input[pos] != '^' && input[pos] != '-'
    ensures range ==>
              Class(input, pos, g, cc, c, range, first) ==
              Class(input, pos + 1, AddRange(g, cc, c, input[pos]), cc, '\0', false, false)
    ensures !range ==>
              Class(input, pos, g, cc, c, range, first) ==
              Class(input, pos + 1, if c != '\0' then AddRange(g, cc, c, '\0') else g, cc, input[pos], false, false)
  {
    LexReadsOneCharacter(input, pos);
  }

  /** So "x-y", read with no range open, adds the one range (x, y), after flushing a pending character as (c, 0). */
  lemma ClassRange(input: string, pos: nat, g: Graph, cc: nat, c: char, first: bool)
    requires cc < |g.links| && pos + 2 < |input| && input[pos + 1] == '-'
    requires forall k :: pos <= k <= pos + 2 && k != pos + 1 ==>
               input[k] != '\0' && !Special(input[k]) && input[k] != '^' && input[k] != '-'
    ensures Class(input, pos, g, cc, c, false, first) ==
            Class(input, pos + 3, AddRange(if c != '\0' then AddRange(g, cc, c, '\0') else g, cc, input[pos], input[pos + 2]),
                  cc, '\0', false, false)
  {
    var g1 := if c != '\0' then AddRange(g, cc, c, '\0') else g;
    ClassCharacter(input, pos, g, cc, c, false, first);
    ClassDash(input, pos + 1, g1, cc, input[pos], false, false);
    ClassCharacter(input, pos + 2, g1, cc, input[pos], true, false);
  }

  // Examples: each of these reads a class body after '[' into the class link cc of any graph.

  /** A leading '^' negates; "x-y" is one range. */
  lemma ClassNegatedRange(g: Graph, cc: nat)
    requires cc < |g.links|
    ensures Class("^a-z]", 0, g, cc, '\0', false, true) == Outcome(Ok, AddRange(SetNot(g, cc), cc, 'a', 'z'), 5)
  {
    var g1 := SetNot(g, cc);
    assert Class("^a-z]", 3, g1, cc, 'a', true, false) == Outcome(Ok, AddRange(g1, cc, 'a', 'z'), 5);
    assert Class("^a-z]", 1, g1, cc, '\0', false, false) == Class("^a-z]", 3, g1, cc, 'a', true, false);
  }

  /** Lone characters are added in order, each as the range (c, 0), the last one at ']'. */
  lemma ClassSingles(g: Graph, cc: nat)
    requires cc < |g.links|
    ensures Class("ab]", 0, g, cc, '\0', false, true) == Outcome(Ok, AddRange(AddRange(g, cc, 'a', '\0'), cc, 'b', '\0'), 3)
  {
    var g1 := AddRange(g, cc, 'a', '\0');
    assert Class("ab]", 2, g1, cc, 'b', false, false) == Outcome(Ok, AddRange(g1, cc, 'b', '\0'), 3);
    assert Class("ab]", 1, g, cc, 'a', false, false) == Class("ab]", 2, g1, cc, 'b', false, false);
  }

  /** A '-' with no character pending is literal. */
  lemma ClassLeadingDash(g: Graph, cc: nat)
    requires cc < |g.links|
    ensures Class("-a]", 0, g, cc, '\0', false, true) == Outcome(Ok, AddRange(AddRange(g, cc, '-', '\0'), cc, 'a', '\0'), 3)
  {
    var g1 := AddRange(g, cc, '-', '\0');
    assert Class("-a]", 2, g1, cc, 'a', false, false) == Outcome(Ok, AddRange(g1, cc, 'a', '\0'), 3);
    assert Class("-a]", 1, g1, cc, '\0', false, false) == Class("-a]", 2, g1, cc, 'a', false, false);
  }

  /** A '^' that is not first is literal, and is added before the character still pending. */
  lemma ClassLateCaret(g: Graph, cc: nat)
    requires cc < |g.links|
    ensures Class("a^]", 0, g, cc, '\0', false, true) == Outcome(Ok, AddRange(AddRange(g, cc, '^', '\0'), cc, 'a', '\0'), 3)
  {
    var g1 := AddRange(g, cc, '^', '\0');
    assert Class("a^]", 2, g1, cc, 'a', false, false) == Outcome(Ok, AddRange(g1, cc, 'a', '\0'), 3);
    assert Class("a^]", 1, g, cc, 'a', false, false) == Class("a^]", 2, g1, cc, 'a', false, false);
  }

  /** A trailing "c-" keeps only c: the open range is dropped at ']'. */
  lemma ClassTrailingDash(g: Graph, cc: nat)
    requires cc < |g.links|
    ensures Class("a-]", 0, g, cc, '\0', false, true) == Outcome(Ok, AddRange(g, cc, 'a', '\0'), 3)
  {
    assert Class("a-]", 2, g, cc, 'a', true, false) == Outcome(Ok, AddRange(g, cc, 'a', '\0'), 3);
    assert Class("a-]", 1, g, cc, 'a', false, false) == Class("a-]", 2, g, cc, 'a', true, false);
  }

  /** Any other token inside the class is InvalidCc; the end of the input is EarlyEof. */
  lemma ClassErrors(g: Graph, cc: nat)
    requires cc < |g.links|
    ensures Class("a(]", 0, g, cc, '\0', false, true).result == InvalidCc
    ensures Class("a*", 0, g, cc, '\0', false, true).result == InvalidCc
    ensures Class("ab", 0, g, cc, '\0', false, true).result == EarlyEof
  {
    assert Class("a(]", 1, g, cc, 'a', false, false).result == InvalidCc;
    assert Class("a*", 1, g, cc, 'a', false, false).result == InvalidCc;
    assert Class("ab", 2, AddRange(g, cc, 'a', '\0'), cc, 'b', false, false).result == EarlyEof;
  }

  /** In general: a special token other than ']' is InvalidCc, the end of the input EarlyEof. */
  lemma ClassNextToken(input: string, pos: nat, g: Graph, cc: nat, c: char, range: bool, first: bool)
    requires cc < |g.links|
    ensures AtEnd(input, pos) ==> Class(input, pos, g, cc, c, range, first) == Outcome(EarlyEof, g, pos)
    ensures !AtEnd(input, pos) && Special(input[pos]) && input[pos] != ']' ==>
              Class(input, pos, g, cc, c, range, first) == Outcome(InvalidCc, g, pos + 1)
  {
    if !AtEnd(input, pos) && Special(input[pos]) && input[pos] != ']' {
      LexSpecials(input, pos);
    }
  }

  // ----- Whole regexes -----

  /** "a|b": both alternatives lie between the start node 0 and the final node 1. */
  lemma AlternationBuilds()
    ensures Create("a|b") ==
            Some(Nfa(Graph(6, [Link(Blank, false, [], 0, 2), Link(CharLink, false, [Range('a', '\0')], 2, 3),
                               Link(Blank, false, [], 0, 4), Link(CharLink, false, [Range('b', '\0')], 4, 5),
                               Link(Blank, false, [], 5, 1), Link(Blank, false, [], 3, 1)]), 0, 1))
  {
    var input := "a|b";
    var a := [Link(Blank, false, [], 0, 2), Link(CharLink, false, [Range('a', '\0')], 2, 3)];
    var b := [Link(Blank, false, [], 0, 4), Link(CharLink, false, [Range('b', '\0')], 4, 5)];
    assert [] + a == a;
    CharAddsTwoNodesTwoLinks(input, 0, Seeded(), 0, 1, Eof, 0, None);
    CharAddsTwoNodesTwoLinks(input, 2, Graph(4, a), 0, 1, Eof, 0, None);
    EndOfInput(input, 3, Graph(6, a + b), 0, 1, Eof, 5, Some((4, 5)));
    var sub := Outcome(Ok, Graph(6, a + b + [Link(Blank, false, [], 5, 1)]), 3);
    assert Parse(input, 2, Graph(4, a), 0, 1, Eof) == sub;
    OrSharesEnds(input, 1, Graph(4, a), 0, 1, Eof, 3, Some((2, 3)));
    assert Parse(input, 0, Seeded(), 0, 1, Eof) == Outcome(Ok, Graph(6, sub.g.links + [Link(Blank, false, [], 3, 1)]), 3);
    assert sub.g.links + [Link(Blank, false, [], 3, 1)] ==
           [a[0], a[1], b[0], b[1], Link(Blank, false, [], 5, 1), Link(Blank, false, [], 3, 1)];
  }

  /** A regex that starts with '*' or '+' has nothing to repeat, and is not created. */
  lemma LeadingRepeatHasNoRegex(input: string)
    requires |input| > 0 && (input[0] == '*' || input[0] == '+')
    ensures Create(input) == None
  {
    RepeatNeedsAtom(input, 0, Seeded(), 0, 1, Eof, 0);
  }

  /** A class with no ']' left never closes: it ends at EarlyEof, or earlier at InvalidCc. */
  lemma {:induction false} UnclosedClassFails(input: string, pos: nat, g: Graph, cc: nat, c: char, range: bool, first: bool)
    requires cc < |g.links|
    requires forall i :: pos <= i < |input| ==> input[i] != ']'
    ensures Class(input, pos, g, cc, c, range, first).result != Ok
    decreases |input| - pos
  {
    var (token, p) := Lex(input, pos);
    match token
    case Eof =>
    case Char(t) =>
      if t == '^' {
        UnclosedClassFails(input, p, if first then SetNot(g, cc) else AddRange(g, cc, t, '\0'), cc, c, range, false);
      } else if t == '-' {
        if c != '\0' {
          UnclosedClassFails(input, p, g, cc, c, true, false);
        } else {
          UnclosedClassFails(input, p, AddRange(g, cc, t, '\0'), cc, c, range, false);
        }
      } else if range {
        UnclosedClassFails(input, p, AddRange(g, cc, c, t), cc, '\0', false, false);
      } else {
        UnclosedClassFails(input, p, if c != '\0' then AddRange(g, cc, c, '\0') else g, cc, t, range, false);
      }
    case _ =>
  }

  /** So a regex that opens a class and never closes it is not created. */
  lemma UnclosedClassHasNoRegex(input: string)
    requires |input| > 0 && input[0] == '[' && forall i :: 0 <= i < |input| ==> input[i] != ']'
    ensures Create(input) == None
  {
    var atom := [Link(Blank, false, [], 0, 2), Link(CharLink, false, [], 2, 3)];
    assert [] + atom == atom;
    ClassBetweenNewNodes(input, 0, Seeded(), 0, 1, Eof, 0, None);
    UnclosedClassFails(input, 1, Graph(4, atom), 1, '\0', false, true);
  }

  /** Two repeats in a row after a first character: the second one has nothing to repeat. */
  lemma DoubleRepeatHasNoRegex(input: string)
    requires |input| >= 3 && input[0] != '\0' && !Special(input[0])
    requires (input[1] == '*' || input[1] == '+') && (input[2] == '*' || input[2] == '+')
    ensures Create(input) == None
  {
    var atom := [Link(Blank, false, [], 0, 2), Link(CharLink, false, [Range(input[0], '\0')], 2, 3)];
    assert [] + atom == atom;
    CharAddsTwoNodesTwoLinks(input, 0, Seeded(), 0, 1, Eof, 0, None);
    RepeatAfterRepeat(input, 1, Graph(4, atom), 0, 1, Eof, 3, Some((2, 3)));
  }

  /** A special character other than ']' inside a class, here right after "[c", leaves no regex. */
  lemma SpecialInClassHasNoRegex(input: string)
    requires |input| >= 3 && input[0] == '[' && input[1] != '\0' && !Special(input[1]) && input[1] != '^' && input[1] != '-'
    requires Special(input[2]) && input[2] != ']'
    ensures Create(input) == None
  {
    var atom := [Link(Blank, false, [], 0, 2), Link(CharLink, false, [], 2, 3)];
    assert [] + atom == atom;
    ClassBetweenNewNodes(input, 0, Seeded(), 0, 1, Eof, 0, None);
    ClassNextToken(input, 2, Graph(4, atom), 1, input[1], false, false);
    assert Lex(input, 1) == (Char(input[1]), 2);
    assert Class(input, 1, Graph(4, atom), 1, '\0', false, true) == Class(input, 2, Graph(4, atom), 1, input[1], false, false);
  }
}
