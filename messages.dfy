/**
 * `MessagesFromClient`: turns one line from a session into a call on the
 * shared store and a fixed reply. Recognising the command is pure (Parse);
 * rendering the two query results is pure (ShortestPathText, CloserThanText);
 * the helpers that call the store change it in place.
 */
module Messages {
  import opened Wrappers
  import opened JavaInt
  import opened JavaString
  import opened Edges
  import Graph

  const UNRECOGNIZED_WORD: string := "SORRY, I DIDN'T UNDERSTAND THAT"
  const NODE_NOT_FOUND: string := "ERROR: NODE NOT FOUND"
  const BYE: string := "BYE MATE!"

  /** The alternatives of the validation pattern, each written there as `.*PHRASE.*`. */
  const PHRASES: seq<string> := ["ADD NODE", "REMOVE NODE", "ADD EDGE", "REMOVE EDGE", "SHORTEST PATH", "CLOSER THAN"]

  /** The characters `.` of `java.util.regex` does not match by default. */
  predicate IsLineTerminator(c: char) {
    c == '\n' || c == '\r' || c == '\U{0085}' || c == '\U{2028}' || c == '\U{2029}'
  }

  predicate Clean(s: string) {
    forall i :: 0 <= i < |s| ==> !IsLineTerminator(s[i])
  }

  /**
   * `Pattern.matches(".*ADD NODE.*|...|.*CLOSER THAN.*", s)`: the whole line
   * must match one alternative, so it holds no line terminator and contains
   * one of the phrases.
   */
  predicate Validates(s: string) {
    Clean(s) && exists k :: 0 <= k < |PHRASES| && Contains(s, PHRASES[k])
  }

  /** The six commands with their arguments. */
  datatype Request =
    | AddNode(name: string)
    | RemoveNode(name: string)
    | AddEdge(source: string, destination: string, weight: Int32)
    | RemoveEdge(source: string, destination: string)
    | ShortestPath(source: string, destination: string)
    | CloserThan(limit: Int32, source: string)

  /**
   * The branches of `processResponse` after the BYE test: a line that fails
   * the pattern, starts with no command prefix in the required token count,
   * or carries a weight `Integer.parseInt` rejects, is None (the reply
   * UNRECOGNIZED_WORD). The prefix is tested on the line and the count on
   * `split(" ")`, in the source's order.
   */
  function Parse(input: string): Option<Request>
  {
    if !Validates(input) then None
    else
      var tokens := JavaSplit(input);
      var n := |tokens|;
      if StartsWith(input, "ADD NODE") && n == 3 then Some(AddNode(tokens[2]))
      else if StartsWith(input, "REMOVE NODE") && n == 3 then Some(RemoveNode(tokens[2]))
      else if StartsWith(input, "ADD EDGE") && n == 5 then
        (match ParseInt(tokens[4])
         case None => None
         case Some(w) => Some(AddEdge(tokens[2], tokens[3], w)))
      else if StartsWith(input, "REMOVE EDGE") && n == 4 then Some(RemoveEdge(tokens[2], tokens[3]))
      else if StartsWith(input, "SHORTEST PATH") && n == 4 then Some(ShortestPath(tokens[2], tokens[3]))
      else if StartsWith(input, "CLOSER THAN") && n == 4 then
        (match ParseInt(tokens[2])
         case None => None
         case Some(w) => Some(CloserThan(w, tokens[3])))
      else None
  }

  /** The canonical line of a request: its tokens joined by single spaces. */
  function Tokens(r: Request): seq<string> {
    match r
    case AddNode(n) => ["ADD", "NODE", n]
    case RemoveNode(n) => ["REMOVE", "NODE", n]
    case AddEdge(s, d, w) => ["ADD", "EDGE", s, d, IntToString(w)]
    case RemoveEdge(s, d) => ["REMOVE", "EDGE", s, d]
    case ShortestPath(s, d) => ["SHORTEST", "PATH", s, d]
    case CloserThan(w, s) => ["CLOSER", "THAN", IntToString(w), s]
  }

  function Format(r: Request): string {
    Join(Tokens(r), " ")
  }

  /** A name a token can carry: no space and no line terminator. */
  predicate IsName(n: string) {
    ' ' !in n && Clean(n)
  }

  /**
   * The requests a line can express: names are tokens, and the last token
   * is not empty (`split` drops trailing empty tokens); an empty name
   * between two spaces is a token too. Some of them, such as an edge from
   * "BYE" to "MATE!", have a canonical line holding the farewell phrase, which
   * `ProcessResponse` answers before it parses: ParseFormat is about Parse.
   */
  predicate Valid(r: Request) {
    match r
    case AddNode(n) => IsName(n) && n != ""
    case RemoveNode(n) => IsName(n) && n != ""
    case AddEdge(s, d, _) => IsName(s) && IsName(d)
    case RemoveEdge(s, d) => IsName(s) && IsName(d) && d != ""
    case ShortestPath(s, d) => IsName(s) && IsName(d) && d != ""
    case CloserThan(_, s) => IsName(s) && s != ""
  }

  lemma {:induction false} JoinClean(parts: seq<string>)
    requires forall k :: 0 <= k < |parts| ==> Clean(parts[k])
    ensures Clean(Join(parts, " "))
    decreases |parts|
  {
    if |parts| > 1 {
      JoinClean(parts[1..]);
      var j := parts[0] + " " + Join(parts[1..], " ");
      forall i | 0 <= i < |j| ensures !IsLineTerminator(j[i]) {
        if i > |parts[0]| {
          assert j[i] == Join(parts[1..], " ")[i - |parts[0]| - 1];
        }
      }
    }
  }

  /** The decimal text of an int is a non-empty token without space or line terminator. */
  lemma IntToStringToken(w: Int32)
    ensures IntToString(w) != "" && IsName(IntToString(w))
  {
    var m: nat := if w < 0 then -(w as int) else w;
    NatToStringDigits(m);
    var s := IntToString(w);
    forall i | 0 <= i < |s| ensures s[i] == '-' || IsDigit(s[i]) {
      if w < 0 && i > 0 {
        assert s[i] == NatToString(m)[i - 1];
      }
    }
  }

  /**
   * Space-joined tokens without spaces or line terminators, the last one
   * non-empty and the first two spelling phrase k, split back into the
   * tokens, pass the pattern and start with the phrase.
   */
  lemma CanonicalLine(t: seq<string>, k: nat)
    requires |t| >= 3 && t[0] != "" && t[|t| - 1] != ""
    requires forall i :: 0 <= i < |t| ==> IsName(t[i])
    requires k < |PHRASES| && t[0] + " " + t[1] == PHRASES[k]
    ensures JavaSplit(Join(t, " ")) == t
    ensures Validates(Join(t, " ")) && StartsWith(Join(t, " "), PHRASES[k])
  {
    JavaSplitOfJoin(t);
    JoinClean(t);
    JoinHead(t);
    StartsWithConcat(t[0] + " " + t[1], " " + Join(t[2..], " "));
    Announces(Join(t, " "), k);
  }

  /** A clean line that starts with a phrase passes the pattern. */
  lemma Announces(s: string, k: nat)
    requires k < |PHRASES| && Clean(s) && StartsWith(s, PHRASES[k])
    ensures Validates(s)
  {
  }

  /** A line that starts with q does not start with a phrase p whose first letter differs. */
  lemma OtherPhrase(s: string, q: string, p: string)
    requires StartsWith(s, q) && |q| > 0 && |p| > 0 && q[0] != p[0]
    ensures !StartsWith(s, p)
  {
    assert s[..|q|][0] == s[0];
    if |p| <= |s| {
      assert s[..|p|][0] == s[0];
    }
  }

  /** The six phrases are the first two tokens of their commands with a space between. */
  lemma PhraseSpelling()
    ensures "ADD" + " " + "NODE" == PHRASES[0]
    ensures "REMOVE" + " " + "NODE" == PHRASES[1]
    ensures "ADD" + " " + "EDGE" == PHRASES[2]
    ensures "REMOVE" + " " + "EDGE" == PHRASES[3]
    ensures "SHORTEST" + " " + "PATH" == PHRASES[4]
    ensures "CLOSER" + " " + "THAN" == PHRASES[5]
  {
  }

  lemma ParseFormatAddNode(n: string)
    requires Valid(AddNode(n))
    ensures Parse(Format(AddNode(n))) == Some(AddNode(n))
  {
    PhraseSpelling();
    CanonicalLine(["ADD", "NODE", n], 0);
  }

  lemma ParseFormatRemoveNode(n: string)
    requires Valid(RemoveNode(n))
    ensures Parse(Format(RemoveNode(n))) == Some(RemoveNode(n))
  {
    PhraseSpelling();
    CanonicalLine(["REMOVE", "NODE", n], 1);
    OtherPhrase(Format(RemoveNode(n)), PHRASES[1], "ADD NODE");
  }

  lemma ParseFormatAddEdge(a: string, b: string, w: Int32)
    requires Valid(AddEdge(a, b, w))
    ensures Parse(Format(AddEdge(a, b, w))) == Some(AddEdge(a, b, w))
  {
    PhraseSpelling();
    IntToStringToken(w);
    ParseIntToString(w);
    CanonicalLine(["ADD", "EDGE", a, b, IntToString(w)], 2);
  }

  lemma ParseFormatRemoveEdge(a: string, b: string)
    requires Valid(RemoveEdge(a, b))
    ensures Parse(Format(RemoveEdge(a, b))) == Some(RemoveEdge(a, b))
  {
    PhraseSpelling();
    CanonicalLine(["REMOVE", "EDGE", a, b], 3);
  }

  lemma ParseFormatShortestPath(a: string, b: string)
    requires Valid(ShortestPath(a, b))
    ensures Parse(Format(ShortestPath(a, b))) == Some(ShortestPath(a, b))
  {
    PhraseSpelling();
    CanonicalLine(["SHORTEST", "PATH", a, b], 4);
    OtherPhrase(Format(ShortestPath(a, b)), PHRASES[4], "REMOVE EDGE");
  }

  lemma ParseFormatCloserThan(w: Int32, a: string)
    requires Valid(CloserThan(w, a))
    ensures Parse(Format(CloserThan(w, a))) == Some(CloserThan(w, a))
  {
    PhraseSpelling();
    IntToStringToken(w);
    ParseIntToString(w);
    CanonicalLine(["CLOSER", "THAN", IntToString(w), a], 5);
    OtherPhrase(Format(CloserThan(w, a)), PHRASES[5], "REMOVE EDGE");
    OtherPhrase(Format(CloserThan(w, a)), PHRASES[5], "SHORTEST PATH");
  }

  /** Every request a line can express is read back from its canonical line. */
  lemma ParseFormat(r: Request)
    requires Valid(r)
    ensures Parse(Format(r)) == Some(r)
  {
    match r {
      case AddNode(n) => ParseFormatAddNode(n);
      case RemoveNode(n) => ParseFormatRemoveNode(n);
      case AddEdge(a, b, w) => ParseFormatAddEdge(a, b, w);
      case RemoveEdge(a, b) => ParseFormatRemoveEdge(a, b);
      case ShortestPath(a, b) => ParseFormatShortestPath(a, b);
      case CloserThan(w, a) => ParseFormatCloserThan(w, a);
    }
  }

  /** What a line parses to is a request its canonical line expresses too. */
  lemma ParsedIsValid(input: string)
    requires Parse(input).Some?
    ensures Valid(Parse(input).value)
  {
    var tokens := JavaSplit(input);
    assert ' ' in input;
    JavaSplitTokens(input);
    forall k | 0 <= k < |tokens| ensures Clean(tokens[k]) {
      forall i | 0 <= i < |tokens[k]| ensures !IsLineTerminator(tokens[k][i]) {
        assert tokens[k][i] in tokens[k];
        assert tokens[k][i] in input;
        var j :| 0 <= j < |input| && input[j] == tokens[k][i];
      }
    }
  }

  /** A parsed line and its canonical line ask for the same thing. */
  lemma ParseCanonical(input: string)
    requires Parse(input).Some?
    ensures Parse(Format(Parse(input).value)) == Parse(input)
  {
    ParsedIsValid(input);
    ParseFormat(Parse(input).value);
  }

  // ---------------------------------------------------------------------------
  // Rendering the query results

  /** `shortestPath`: the decimal text of the distance, except that "0" becomes the not-found reply. */
  function ShortestPathText(d: Int32): string {
    var result := IntToString(d);
    if result == "0" then NODE_NOT_FOUND else result
  }

  /**
   * Only a zero distance, which is also what the store answers when a node is
   * missing, gives the not-found reply; every other distance is printed so
   * that `parseInt` reads it back, and an unreachable node prints as MAX_INT.
   */
  lemma ShortestPathTextMeaning(d: Int32)
    ensures ShortestPathText(d) == NODE_NOT_FOUND <==> d == 0
    ensures d != 0 ==> ParseInt(ShortestPathText(d)) == Some(d)
    ensures ShortestPathText(MAX_INT) == "2147483647"
  {
    IntToStringIsZero(d);
    IntToStringToken(d);
    ParseIntToString(d);
    if d != 0 {
      assert ParseInt(NODE_NOT_FOUND).None?;
    }
    MaxIntToString();
  }

  /** `closerThan`: null is the not-found reply, a set is its `toString()` without brackets and whitespace. */
  function CloserThanText(result: Option<seq<string>>): string {
    match result
    case None => NODE_NOT_FOUND
    case Some(names) => Strip(CollectionToString(names))
  }

  lemma {:induction false} StripHasNoStripped(s: string)
    ensures forall i :: 0 <= i < |Strip(s)| ==> !IsStripped(Strip(s)[i])
    decreases |s|
  {
    if |s| > 0 {
      StripHasNoStripped(s[1..]);
    }
  }

  /**
   * A set never renders as the not-found reply (that reply holds spaces);
   * names free of brackets and whitespace render as the names joined by
   * commas, and the empty set as the empty string.
   */
  lemma CloserThanTextMeaning(names: seq<string>)
    ensures CloserThanText(Some(names)) != NODE_NOT_FOUND
    ensures (forall k, i :: 0 <= k < |names| && 0 <= i < |names[k]| ==> !IsStripped(names[k][i])) ==>
      CloserThanText(Some(names)) == Join(names, ",")
    ensures names == [] ==> CloserThanText(Some(names)) == ""
  {
    StripHasNoStripped(CollectionToString(names));
    assert IsStripped(NODE_NOT_FOUND[6]);
    if forall k, i :: 0 <= k < |names| && 0 <= i < |names[k]| ==> !IsStripped(names[k][i]) {
      StripCollectionToString(names);
    }
  }

  // ---------------------------------------------------------------------------
  // The dispatcher

  /** The reply to SHORTEST PATH s d on a store holding nodes and edges. */
  ghost predicate ShortestPathAnswered(nodes: set<string>, edges: seq<Edge>, s: string, d: string, response: string) {
    if s in nodes && d in nodes then
      exists dist: Int32 :: Graph.ShortestAnswer(edges, s, d, dist) && response == ShortestPathText(dist)
    else response == NODE_NOT_FOUND
  }

  /** The reply to CLOSER THAN w s on a store holding nodes and edges. */
  ghost predicate CloserThanAnswered(nodes: set<string>, edges: seq<Edge>, w: Int32, s: string, response: string) {
    if s in nodes then
      exists names :: StrictlySorted(names) && Graph.CloserAnswer(edges, s, w, names) && response == CloserThanText(Some(names))
    else response == NODE_NOT_FOUND
  }

  /**
   * What handling a parsed request does to a store holding nodes and
   * edges: the store afterwards (nodes', edges') and the reply.
   */
  ghost predicate Handled(nodes: set<string>, edges: seq<Edge>, request: Option<Request>,
                          nodes': set<string>, edges': seq<Edge>, response: string) {
    match request
    case None =>
      nodes' == nodes && edges' == edges && response == UNRECOGNIZED_WORD
    case Some(AddNode(n)) =>
      && nodes' == nodes + {n} && edges' == edges
      && response == if n !in nodes then "NODE ADDED" else "ERROR: NODE ALREADY EXISTS"
    case Some(RemoveNode(n)) =>
      && nodes' == nodes - {n}
      && edges' == (if n in nodes then Graph.Unmatched(edges, n, n) else edges)
      && response == if n in nodes then "NODE REMOVED" else NODE_NOT_FOUND
    case Some(AddEdge(s, d, w)) =>
      && nodes' == nodes
      && edges' == (if s in nodes && d in nodes then edges + [Edge(s, d, w)] else edges)
      && response == if s in nodes && d in nodes then "EDGE ADDED" else NODE_NOT_FOUND
    case Some(RemoveEdge(s, d)) =>
      && nodes' == nodes
      && edges' == (if s in nodes && d in nodes then Graph.Unmatched(edges, s, d) else edges)
      && response == if s in nodes && d in nodes then "EDGE REMOVED" else NODE_NOT_FOUND
    case Some(ShortestPath(s, d)) =>
      nodes' == nodes && edges' == edges && ShortestPathAnswered(nodes, edges, s, d, response)
    case Some(CloserThan(w, s)) =>
      nodes' == nodes && edges' == edges && CloserThanAnswered(nodes, edges, w, s, response)
  }

  /** An empty token between two spaces is a name: this line asks for an edge from "". */
  lemma ParseEmptySource()
    ensures Parse("ADD EDGE  b 1") == Some(AddEdge("", "b", 1))
  {
    var r := AddEdge("", "b", 1);
    assert IntToString(1) == "1";
    var tokens := ["ADD", "EDGE", "", "b", "1"];
    assert Tokens(r) == tokens;
    assert Join(tokens[3..], " ") == "b 1";
    assert Join(tokens, " ") == "ADD EDGE  b 1";
    ParseFormatAddEdge("", "b", 1);
  }

  /**
   * No line makes "" a node, so on a store built from lines an edge request
   * from "" (as `ADD EDGE  b 1` is) always replies that a node is not found.
   */
  lemma EmptyNameNeverNode(nodes: set<string>, edges: seq<Edge>, line: string,
                           nodes': set<string>, edges': seq<Edge>, response: string)
    requires "" !in nodes
    requires Handled(nodes, edges, Parse(line), nodes', edges', response)
    ensures "" !in nodes'
    ensures (Parse(line).Some? && Parse(line).value.AddEdge? && Parse(line).value.source == "") ==>
      response == NODE_NOT_FOUND && edges' == edges
  {
    if Parse(line).Some? {
      ParsedIsValid(line);
    }
  }

  /**
   * `processResponse`: None is Java's null. A null line or one containing
   * the farewell gets the empty reply and leaves the store alone; any other
   * line is handled as it parses.
   */
  method ProcessResponse(g: Graph.DirectedGraph, inputMessage: Option<string>) returns (response: string)
    modifies g
    ensures inputMessage.None? || Contains(inputMessage.value, BYE) ==>
      response == "" && g.nodes == old(g.nodes) && g.edges == old(g.edges)
    ensures inputMessage.Some? && !Contains(inputMessage.value, BYE) ==>
      Handled(old(g.nodes), old(g.edges), Parse(inputMessage.value), g.nodes, g.edges, response)
  {
    if inputMessage.None? || Contains(inputMessage.value, BYE) {
      return "";
    }
    var message := inputMessage.value;
    if !Validates(message) {
      return UNRECOGNIZED_WORD;
    }
    var splitInputWord := JavaSplit(message);
    var splitInputWordLength := |splitInputWord|;
    if StartsWith(message, "ADD NODE") && splitInputWordLength == 3 {
      response := AddNodeReply(g, splitInputWord[2]);
      return;
    }
    if StartsWith(message, "REMOVE NODE") && splitInputWordLength == 3 {
      response := RemoveNodeReply(g, splitInputWord[2]);
      return;
    }
    if StartsWith(message, "ADD EDGE") && splitInputWordLength == 5 {
      var weight := ParseInt(splitInputWord[4]);
      if weight.None? {
        // the NumberFormatException is caught before the store is called
        return UNRECOGNIZED_WORD;
      }
      response := AddEdgeReply(g, splitInputWord[2], splitInputWord[3], weight.value);
      return;
    }
    if StartsWith(message, "REMOVE EDGE") && splitInputWordLength == 4 {
      response := RemoveEdgeReply(g, splitInputWord[2], splitInputWord[3]);
      return;
    }
    if StartsWith(message, "SHORTEST PATH") && splitInputWordLength == 4 {
      response := ShortestPathReply(g, splitInputWord[2], splitInputWord[3]);
      return;
    }
    if StartsWith(message, "CLOSER THAN") && splitInputWordLength == 4 {
      var weight := ParseInt(splitInputWord[2]);
      if weight.None? {
        return UNRECOGNIZED_WORD;
      }
      response := CloserThanReply(g, weight.value, splitInputWord[3]);
      return;
    }
    return UNRECOGNIZED_WORD;
  }

  method AddNodeReply(g: Graph.DirectedGraph, nodeName: string) returns (response: string)
    modifies g
    ensures g.nodes == old(g.nodes) + {nodeName} && g.edges == old(g.edges)
    ensures response == if nodeName !in old(g.nodes) then "NODE ADDED" else "ERROR: NODE ALREADY EXISTS"
  {
    var added := g.AddNode(nodeName);
    response := if added then "NODE ADDED" else "ERROR: NODE ALREADY EXISTS";
  }

  /**
   * The source passes the node map's entries for the two names, null for a
   * missing name, which the store's lookup then misses too: passing the
   * names has the same effect.
   */
  method AddEdgeReply(g: Graph.DirectedGraph, sourceNode: string, destinationNode: string, weight: Int32)
    returns (response: string)
    modifies g
    ensures g.nodes == old(g.nodes)
    ensures var ok := sourceNode in old(g.nodes) && destinationNode in old(g.nodes);
      && g.edges == (if ok then old(g.edges) + [Edge(sourceNode, destinationNode, weight)] else old(g.edges))
      && response == if ok then "EDGE ADDED" else NODE_NOT_FOUND
  {
    var added := g.AddEdge(sourceNode, destinationNode, weight);
    response := if added then "EDGE ADDED" else NODE_NOT_FOUND;
  }

  method RemoveNodeReply(g: Graph.DirectedGraph, nodeName: string) returns (response: string)
    modifies g
    ensures g.nodes == old(g.nodes) - {nodeName}
    ensures g.edges == if nodeName in old(g.nodes) then Graph.Unmatched(old(g.edges), nodeName, nodeName) else old(g.edges)
    ensures response == if nodeName in old(g.nodes) then "NODE REMOVED" else NODE_NOT_FOUND
  {
    var removed := g.RemoveNode(nodeName);
    response := if removed then "NODE REMOVED" else NODE_NOT_FOUND;
  }

  method RemoveEdgeReply(g: Graph.DirectedGraph, sourceNode: string, destinationNode: string) returns (response: string)
    modifies g
    ensures g.nodes == old(g.nodes)
    ensures var ok := sourceNode in old(g.nodes) && destinationNode in old(g.nodes);
      && g.edges == (if ok then Graph.Unmatched(old(g.edges), sourceNode, destinationNode) else old(g.edges))
      && response == if ok then "EDGE REMOVED" else NODE_NOT_FOUND
  {
    var removed := g.RemoveEdge(sourceNode, destinationNode);
    response := if removed then "EDGE REMOVED" else NODE_NOT_FOUND;
  }

  method ShortestPathReply(g: Graph.DirectedGraph, sourceNode: string, destinationNode: string) returns (response: string)
    ensures ShortestPathAnswered(g.nodes, g.edges, sourceNode, destinationNode, response)
  {
    var d := g.GetShortestPath(sourceNode, destinationNode);
    response := ShortestPathText(d);
    if sourceNode !in g.nodes || destinationNode !in g.nodes {
      ShortestPathTextMeaning(d);
    }
  }

  method CloserThanReply(g: Graph.DirectedGraph, weight: Int32, sourceNode: string) returns (response: string)
    ensures CloserThanAnswered(g.nodes, g.edges, weight, sourceNode, response)
  {
    var result := g.GetCloserThan(weight, sourceNode);
    response := CloserThanText(result);
  }
}
