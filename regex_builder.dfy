/**
 * dynRegexCreate and dynRegexParse of tests/grep.c as the C code runs them:
 * a parser object whose read position advances token by token, and a
 * dynRegex object whose node and link arrays grow as the parse goes.
 *
 * A node or link pointer is modelled as its index in dr->nodes or dr->links;
 * a node's own link array holds link indices. Every method is proved to
 * build exactly the graph the Regex module's functions describe, so what is
 * proved there about Parse and Create holds for this builder too.
 */
module RegexBuilder {
  import opened Regex

  /** dynRegexNode: the links leaving the node, in creation order, and its final flag. */
  datatype Node = Node(links: seq<nat>, final: bool)

  /** regexParser: the input string and the read position curr. */
  class Parser {
    const input: string
    var curr: nat

    constructor (input: string)
      ensures this.input == input && curr == 0
    {
      this.input := input;
      curr := 0;
    }

    /** regexLex: yield the token at curr and step over it; at the end of the input stay put. */
    method Lex() returns (token: Token)
      requires curr <= |input|
      modifies this
      ensures (token, curr) == Regex.Lex(input, old(curr))
      ensures curr <= |input|
    {
      if AtEnd(input, curr) {
        token := Eof;
      } else {
        var ch := input[curr];
        if ch == '|' {
          token := Or;
        } else if ch == '*' {
          token := ZeroOrMore;
        } else if ch == '+' {
          token := OneOrMore;
        } else if ch == '(' {
          token := CaptureBegin;
        } else if ch == ')' {
          token := CaptureEnd;
        } else if ch == '[' {
          token := CcBegin;
        } else if ch == ']' {
          token := CcEnd;
        } else {
          token := Char(ch);
        }
        curr := curr + 1;
      }
    }
  }

  /** struct dynRegex: its node and link arrays, and the start and end nodes set on success. */
  class DynRegex {
    var nodes: seq<Node>
    var links: seq<Link>
    var start: nat
    var end: nat

    /** The graph the arrays hold. */
    ghost function G(): Graph
      reads this
    {
      Graph(|nodes|, links)
    }

    /** Every link joins existing nodes, and each node lists exactly the links leaving it, in order. */
    ghost predicate Valid()
      reads this
    {
      Closed(G()) && forall n :: 0 <= n < |nodes| ==> nodes[n].links == Outgoing(links, n)
    }

    /** While the regex is being built, no node is final. */
    ghost predicate NoneFinal()
      reads this
    {
      forall n :: 0 <= n < |nodes| ==> !nodes[n].final
    }

    /** The calloc'ed dynRegex: no nodes, no links. */
    constructor ()
      ensures Valid() && NoneFinal() && nodes == [] && links == []
    {
      nodes, links := [], [];
      start, end := 0, 0;
    }

    /** dynRegexNodeCreate: push a new node with no links and return it. */
    method NodeCreate() returns (n: nat)
      requires Valid() && NoneFinal()
      modifies this
      ensures Valid() && NoneFinal()
      ensures G() == AddNode(old(G())) && n == old(|nodes|)
    {
      n := |nodes|;
      OutgoingOfNewNode(links, n);
      nodes := nodes + [Node([], false)];
    }

    /** dynRegexLinkCreate: push a new link src -> dst without ranges onto dr->links and onto src->links. */
    method LinkCreate(kind: LinkType, src: nat, dst: nat) returns (l: nat)
      requires Valid() && NoneFinal() && src < |nodes| && dst < |nodes|
      modifies this
      ensures Valid() && NoneFinal()
      ensures G() == AddLink(old(G()), kind, src, dst) && l == old(|links|)
      ensures nodes == old(nodes)[src := old(nodes)[src].(links := old(nodes)[src].links + [l])]
    {
      l := |links|;
      var link := Link(kind, false, [], src, dst);
      forall n | 0 <= n < |nodes|
        ensures Outgoing(links + [link], n) == Outgoing(links, n) + if src == n then [l] else []
      {
        OutgoingAppend(links, link, n);
      }
      links := links + [link];
      nodes := nodes[src := nodes[src].(links := nodes[src].links + [l])];
    }

    /** Replace link l by a copy with the same type and ends: no node's list changes. */
    method ReplaceLink(l: nat, link: Link)
      requires Valid() && NoneFinal() && l < |links|
      requires link.kind == links[l].kind && link.src == links[l].src && link.dst == links[l].dst
      modifies this
      ensures Valid() && NoneFinal() && nodes == old(nodes) && links == old(links)[l := link]
    {
      var links' := links[l := link];
      forall n | 0 <= n < |nodes| ensures Outgoing(links', n) == Outgoing(links, n) {
        OutgoingKeepsSources(links, links', n);
      }
      links := links';
    }

    /** dynRegexLinkAddRange: append the range (c1, c2) to link l. */
    method LinkAddRange(l: nat, c1: char, c2: char)
      requires Valid() && NoneFinal() && l < |links|
      modifies this
      ensures Valid() && NoneFinal() && G() == AddRange(old(G()), l, c1, c2) && nodes == old(nodes)
    {
      ReplaceLink(l, links[l].(ranges := links[l].ranges + [Range(c1, c2)]));
    }

    /**
     * The character-class loop of dynRegexParse, after '[' and the class
     * link cc: read ranges into cc up to ']'.
     */
    method ReadClass(parser: Parser, cc: nat) returns (result: ParseResult)
      requires Valid() && NoneFinal() && cc < |links| && parser.curr <= |parser.input|
      modifies this, parser
      ensures Valid() && NoneFinal() && parser.curr <= |parser.input|
      ensures Outcome(result, G(), parser.curr) == Class(parser.input, old(parser.curr), old(G()), cc, '\0', false, true)
    {
      var c := '\0';
      var range := false;
      var first := true;
      ghost var p0, g0 := parser.curr, G();
      while true
        invariant Valid() && NoneFinal() && cc < |links| && parser.curr <= |parser.input|
        invariant Class(parser.input, parser.curr, G(), cc, c, range, first) == Class(parser.input, p0, g0, cc, '\0', false, true)
        decreases |parser.input| - parser.curr
      {
        ghost var p, g := parser.curr, G();
        var token := parser.Lex();
        assert Class(parser.input, p, g, cc, c, range, first) == ClassStep(parser.input, p, token, g, cc, c, range, first);
        if token == Eof {
          return EarlyEof;
        }
        if token == CcEnd {
          if c != '\0' {
            LinkAddRange(cc, c, '\0');
          }
          return Ok;
        }
        if !token.Char? {
          return InvalidCc;
        }
        var t := token.c;
        if t == '^' {
          if first {
            ReplaceLink(cc, links[cc].(not := true));
          } else {
            LinkAddRange(cc, t, '\0');
          }
        } else if t == '-' {
          if c != '\0' {
            range := true;
          } else {
            LinkAddRange(cc, t, '\0');
          }
        } else if range {
          LinkAddRange(cc, c, t);
          range := false;
          c := '\0';
        } else {
          if c != '\0' {
            LinkAddRange(cc, c, '\0');
          }
          c := t;
        }
        first := false;
      }
    }

    /** The links '*' or '+' adds after the atom (s, e): s -> e for '*' only, then e -> s. */
    method AddRepeat(star: bool, s: nat, e: nat)
      requires Valid() && NoneFinal() && s < |nodes| && e < |nodes|
      modifies this
      ensures Valid() && NoneFinal() && G() == Repeated(old(G()), star, s, e)
    {
      if star {
        var _ := LinkCreate(Blank, s, e);
      }
      var _ := LinkCreate(Blank, e, s);
    }

    /** The atom a literal character c builds: nodes s, e, a blank link appendNode -> s, and s -> e matching c. */
    method AddCharAtom(appendNode: nat, c: char) returns (s: nat, e: nat)
      requires Valid() && NoneFinal() && appendNode < |nodes|
      modifies this
      ensures Valid() && NoneFinal() && G() == CharAtom(old(G()), appendNode, c)
      ensures s == old(|nodes|) && e == s + 1
    {
      s := NodeCreate();
      e := NodeCreate();
      var _ := LinkCreate(Blank, appendNode, s);
      var l := LinkCreate(CharLink, s, e);
      LinkAddRange(l, c, '\0');
    }

    /** What '[' builds before reading the class: nodes s, e, a blank link appendNode -> s, and the empty class link cc: s -> e. */
    method AddClassAtom(appendNode: nat) returns (s: nat, e: nat, cc: nat)
      requires Valid() && NoneFinal() && appendNode < |nodes|
      modifies this
      ensures Valid() && NoneFinal() && G() == ClassAtom(old(G()), appendNode)
      ensures s == old(|nodes|) && e == s + 1 && cc == old(|links|) + 1
    {
      s := NodeCreate();
      e := NodeCreate();
      var _ := LinkCreate(Blank, appendNode, s);
      cc := LinkCreate(CharLink, s, e);
    }

    /**
     * The '|' case of dynRegexParse, once the token at p has been read: the
     * rest of the input is parsed between the same start and end nodes, and
     * the branch read so far is closed with a link appendNode -> endNode.
     */
    method ParseOr(parser: Parser, ghost p: nat, ghost g: Graph, startNode: nat, endNode: nat, endType: Token,
                   appendNode: nat, ghost last: Option<(nat, nat)>) returns (result: ParseResult)
      requires Valid() && NoneFinal() && G() == g && Anchored(g, startNode, endNode, appendNode, last)
      requires p < |parser.input| && parser.input[p] == '|' && parser.curr == p + 1
      requires endType == Eof || endType == CaptureEnd
      modifies this, parser
      ensures Valid() && NoneFinal() && p < parser.curr <= |parser.input| && g.nodeCount <= |nodes|
      ensures result != Ok ==>
                Outcome(result, G(), parser.curr) == Loop(parser.input, p, g, startNode, endNode, endType, appendNode, last)
      ensures result == Ok ==>
                Finish(G(), appendNode, endNode, parser.curr) == Loop(parser.input, p, g, startNode, endNode, endType, appendNode, last)
      decreases |parser.input| - p, 0
    {
      OrSharesEnds(parser.input, p, g, startNode, endNode, endType, appendNode, last);
      result := Parse(parser, startNode, endNode, endType);
    }

    /** The '*' and '+' cases of dynRegexParse after the atom (s, e): the repeat's links, then the atom is forgotten. */
    method ParseRepeat(ghost input: string, ghost p: nat, ghost g: Graph, startNode: nat, endNode: nat, endType: Token,
                       appendNode: nat, s: nat, e: nat, star: bool)
      requires Valid() && NoneFinal() && G() == g && s < |nodes| && e < |nodes|
      requires p < |input| && input[p] == (if star then '*' else '+')
      requires endType == Eof || endType == CaptureEnd
      modifies this
      ensures Valid() && NoneFinal() && |nodes| == g.nodeCount
      ensures Loop(input, p + 1, G(), startNode, endNode, endType, appendNode, None) ==
              Loop(input, p, g, startNode, endNode, endType, appendNode, Some((s, e)))
    {
      RepeatLinks(input, p, g, startNode, endNode, endType, appendNode, s, e);
      AddRepeat(star, s, e);
    }

    /** The literal-character case of dynRegexParse: the atom (s, e) matching c; e is the new appendNode. */
    method ParseChar(ghost input: string, ghost p: nat, ghost g: Graph, startNode: nat, endNode: nat, endType: Token,
                     appendNode: nat, ghost last: Option<(nat, nat)>, c: char) returns (s: nat, e: nat)
      requires Valid() && NoneFinal() && G() == g && appendNode < |nodes|
      requires p < |input| && input[p] == c && c != '\0' && !Special(c)
      requires endType == Eof || endType == CaptureEnd
      modifies this
      ensures Valid() && NoneFinal() && s == g.nodeCount && e == s + 1 && e < |nodes|
      ensures Loop(input, p + 1, G(), startNode, endNode, endType, e, Some((s, e))) ==
              Loop(input, p, g, startNode, endNode, endType, appendNode, last)
    {
      CharAddsTwoNodesTwoLinks(input, p, g, startNode, endNode, endType, appendNode, last);
      s, e := AddCharAtom(appendNode, c);
    }

    /**
     * The '[' case of dynRegexParse, once the token at p has been read: the
     * atom (s, e) with the class link s -> e, whose ranges the class loop
     * then reads; e is the new appendNode.
     */
    method ParseClass(parser: Parser, ghost p: nat, ghost g: Graph, startNode: nat, endNode: nat, endType: Token,
                      appendNode: nat, ghost last: Option<(nat, nat)>) returns (result: ParseResult, s: nat, e: nat)
      requires Valid() && NoneFinal() && G() == g && appendNode < |nodes|
      requires p < |parser.input| && parser.input[p] == '[' && parser.curr == p + 1
      requires endType == Eof || endType == CaptureEnd
      modifies this, parser
      ensures Valid() && NoneFinal() && p < parser.curr <= |parser.input|
      ensures s == g.nodeCount && e == s + 1 && e < |nodes|
      ensures result != Ok ==>
                Outcome(result, G(), parser.curr) == Loop(parser.input, p, g, startNode, endNode, endType, appendNode, last)
      ensures result == Ok ==>
                Loop(parser.input, parser.curr, G(), startNode, endNode, endType, e, Some((s, e))) ==
                Loop(parser.input, p, g, startNode, endNode, endType, appendNode, last)
    {
      ClassBetweenNewNodes(parser.input, p, g, startNode, endNode, endType, appendNode, last);
      var cc;
      s, e, cc := AddClassAtom(appendNode);
      result := ReadClass(parser, cc);
    }

    /**
     * The '(' case of dynRegexParse, once the token at p has been read: the
     * atom (s, e) with the group parsed between s and e up to its ')', then a
     * blank link appendNode -> s; e is the new appendNode.
     */
    method ParseCapture(parser: Parser, ghost p: nat, ghost g: Graph, startNode: nat, endNode: nat, endType: Token,
                        appendNode: nat, ghost last: Option<(nat, nat)>) returns (result: ParseResult, s: nat, e: nat)
      requires Valid() && NoneFinal() && G() == g && appendNode < |nodes|
      requires p < |parser.input| && parser.input[p] == '(' && parser.curr == p + 1
      requires endType == Eof || endType == CaptureEnd
      modifies this, parser
      ensures Valid() && NoneFinal() && p < parser.curr <= |parser.input|
      ensures s == g.nodeCount && e == s + 1 && e < |nodes|
      ensures result != Ok ==>
                Outcome(result, G(), parser.curr) == Loop(parser.input, p, g, startNode, endNode, endType, appendNode, last)
      ensures result == Ok ==>
                Loop(parser.input, parser.curr, G(), startNode, endNode, endType, e, Some((s, e))) ==
                Loop(parser.input, p, g, startNode, endNode, endType, appendNode, last)
      decreases |parser.input| - p, 0
    {
      CaptureBetweenNewNodes(parser.input, p, g, startNode, endNode, endType, appendNode, last);
      s := NodeCreate();
      e := NodeCreate();
      result := Parse(parser, s, e, CaptureEnd);
      if result != Ok {
        return;
      }
      var _ := LinkCreate(Blank, appendNode, s);
    }

    /**
     * The switch of dynRegexParse on a token other than Eof and endType, read
     * at p: the atom or links it adds, with the new appendNode and last atom.
     * done is set after '|', which parses the rest of the input itself.
     */
    method ParseToken(parser: Parser, ghost p: nat, ghost g: Graph, token: Token, startNode: nat, endNode: nat,
                      endType: Token, appendNode: nat, last: Option<(nat, nat)>)
      returns (result: ParseResult, done: bool, appendNode': nat, last': Option<(nat, nat)>)
      requires Valid() && NoneFinal() && G() == g && Anchored(g, startNode, endNode, appendNode, last)
      requires p <= |parser.input| && (token, parser.curr) == Lex(parser.input, p)
      requires token != Eof && token != endType && (endType == Eof || endType == CaptureEnd)
      modifies this, parser
      ensures Valid() && NoneFinal() && p < parser.curr <= |parser.input|
      ensures Anchored(G(), startNode, endNode, appendNode', last')
      ensures result != Ok ==>
                Outcome(result, G(), parser.curr) == Loop(parser.input, p, g, startNode, endNode, endType, appendNode, last)
      ensures result == Ok && done ==>
                Finish(G(), appendNode', endNode, parser.curr) == Loop(parser.input, p, g, startNode, endNode, endType, appendNode, last)
      ensures result == Ok && !done ==>
                Loop(parser.input, parser.curr, G(), startNode, endNode, endType, appendNode', last') ==
                Loop(parser.input, p, g, startNode, endNode, endType, appendNode, last)
      decreases |parser.input| - p, 1
    {
      ghost var input := parser.input;
      result, done, appendNode', last' := Ok, false, appendNode, last;
      if token == Or {
        result := ParseOr(parser, p, g, startNode, endNode, endType, appendNode, last);
        done := true;
      } else if token == ZeroOrMore || token == OneOrMore {
        if last.None? {
          RepeatNeedsAtom(input, p, g, startNode, endNode, endType, appendNode);
          result := InvalidMore;
          return;
        }
        ParseRepeat(input, p, g, startNode, endNode, endType, appendNode, last.value.0, last.value.1, token == ZeroOrMore);
        last' := None;
      } else if token == CcBegin {
        var s, e;
        result, s, e := ParseClass(parser, p, g, startNode, endNode, endType, appendNode, last);
        appendNode', last' := e, Some((s, e));
      } else if token == CaptureBegin {
        var s, e;
        result, s, e := ParseCapture(parser, p, g, startNode, endNode, endType, appendNode, last);
        appendNode', last' := e, Some((s, e));
      } else if token.Char? {
        var s, e := ParseChar(input, p, g, startNode, endNode, endType, appendNode, last, token.c);
        appendNode', last' := e, Some((s, e));
      } else {
        // A ')' at the top level, or a ']': no case of the switch takes it.
        CloseOrStray(input, p, g, startNode, endNode, endType, appendNode, last);
        last' := None;
      }
    }

    /**
     * dynRegexParse: read tokens up to endType (Eof for the whole regex,
     * CaptureEnd inside a group), building the graph between startNode and
     * endNode. appendNode is where the next atom is joined on, last the
     * (lastStart, lastEnd) pair of the atom just read.
     */
    method Parse(parser: Parser, startNode: nat, endNode: nat, endType: Token) returns (result: ParseResult)
      requires Valid() && NoneFinal() && parser.curr <= |parser.input|
      requires startNode < |nodes| && endNode < |nodes| && (endType == Eof || endType == CaptureEnd)
      modifies this, parser
      ensures Valid() && NoneFinal() && parser.curr <= |parser.input|
      ensures Outcome(result, G(), parser.curr) == Regex.Parse(parser.input, old(parser.curr), old(G()), startNode, endNode, endType)
      decreases |parser.input| - parser.curr, 2
    {
      var done := false;
      var appendNode := startNode;
      var last: Option<(nat, nat)> := None;
      ghost var p0, g0 := parser.curr, G();
      ghost var input := parser.input;
      while !done
        invariant Valid() && NoneFinal() && p0 <= parser.curr <= |input|
        invariant Anchored(G(), startNode, endNode, appendNode, last)
        invariant !done ==> Loop(input, parser.curr, G(), startNode, endNode, endType, appendNode, last) ==
                            Regex.Parse(input, p0, g0, startNode, endNode, endType)
        invariant done ==> Finish(G(), appendNode, endNode, parser.curr) == Regex.Parse(input, p0, g0, startNode, endNode, endType)
        decreases if done then 0 else 1, |input| - parser.curr
      {
        ghost var p, g := parser.curr, G();
        var token := parser.Lex();
        if token == Eof || token == endType {
          if token == Eof {
            EndOfInput(input, p, g, startNode, endNode, endType, appendNode, last);
          } else {
            CloseOrStray(input, p, g, startNode, endNode, endType, appendNode, last);
          }
          if token != endType {
            return EarlyEof;
          }
          break;
        }
        result, done, appendNode, last := ParseToken(parser, p, g, token, startNode, endNode, endType, appendNode, last);
        if result != Ok {
          return;
        }
      }
      var _ := LinkCreate(Blank, appendNode, endNode);
      result := Ok;
    }

    /**
     * dynRegexCreate: parse input between a new start node 0 and a new end
     * node 1 and mark the end node final; on any parse error there is no
     * regex (NULL).
     */
    static method Create(input: string) returns (dr: DynRegex?)
      ensures dr == null <==> Regex.Create(input).None?
      ensures dr != null ==> fresh(dr) && dr.Valid() && dr.G() == Regex.Create(input).value.g
      ensures dr != null ==> dr.start == 0 && dr.end == 1 && forall n :: 0 <= n < |dr.nodes| ==> dr.nodes[n].final == (n == 1)
    {
      var parser := new Parser(input);
      dr := new DynRegex();
      var s := dr.NodeCreate();
      var e := dr.NodeCreate();
      var result := dr.Parse(parser, s, e, Eof);
      if result == Ok {
        dr.nodes := dr.nodes[e := dr.nodes[e].(final := true)];
        dr.start, dr.end := s, e;
      } else {
        dr := null;
      }
    }
  }
}
