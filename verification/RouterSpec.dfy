/**
  The URL trie of `3rdparty/crow/routing.h`, as a value: how a URL is looked up, how a rule is added
  and how paths are compressed.
 */
module RouterSpec {
  import opened Wrappers

  datatype ParamType = INT | UINT | DOUBLE | STRING | PATH

  /** No blueprint: the largest 16-bit number. */
  const INVALID_BP_ID: nat := 0xFFFF

  datatype Node = Node(rule: nat, blueprint: nat, key: string, param: Option<ParamType>, children: seq<Node>)

  // ---------------------------------------------------------------- parameters

  datatype Value = IntValue(i: int) | UintValue(u: int) | DoubleValue(d: real) | StringValue(s: string)

  /** The parameters of a match, a list for each kind. */
  datatype Params = Params(ints: seq<int>, uints: seq<int>, doubles: seq<real>, strings: seq<string>) {
    function Push(v: Value): Params {
      match v
      case IntValue(i) => this.(ints := ints + [i])
      case UintValue(u) => this.(uints := uints + [u])
      case DoubleValue(d) => this.(doubles := doubles + [d])
      case StringValue(s) => this.(strings := strings + [s])
    }
  }

  const NO_PARAMS: Params := Params([], [], [], [])

  /** The requested URL, and the reading of floating-point numbers, which is left open. */
  datatype Request = Request(url: string, strtod: (string, nat) -> Option<(real, nat)>)

  predicate IsDigit(c: char) {
    '0' <= c <= '9'
  }

  function DigitsEnd(s: string, pos: nat): (end: nat)
    requires pos <= |s|
    ensures pos <= end <= |s|
    decreases |s| - pos
  {
    if pos < |s| && IsDigit(s[pos]) then DigitsEnd(s, pos + 1) else pos
  }

  function DigitsValue(s: string): nat {
    if s == [] then 0
    else DigitsValue(s[..|s| - 1]) * 10 + if IsDigit(s[|s| - 1]) then (s[|s| - 1] - '0') as nat else 0
  }

  /** `strtoll` and `strtoull` in base ten, in the range given; `None` where they read nothing or overflow. */
  function ReadInteger(s: string, pos: nat, low: int, high: int): (r: Option<(int, nat)>)
    requires pos < |s|
    ensures r.Some? ==> pos < r.value.1 <= |s| && low <= r.value.0 <= high
  {
    var start := if s[pos] == '-' || s[pos] == '+' then pos + 1 else pos;
    var end := DigitsEnd(s, start);
    var magnitude: int := DigitsValue(s[start..end]);
    var value := if s[pos] == '-' then 0 - magnitude else magnitude;
    if end == start || value < low || high < value then None else Some((value, end))
  }

  function SegmentEnd(s: string, pos: nat): (end: nat)
    requires pos <= |s|
    ensures pos <= end <= |s|
    decreases |s| - pos
  {
    if pos < |s| && s[pos] != '/' then SegmentEnd(s, pos + 1) else pos
  }

  /** What a parameter takes from the URL at `pos`: its value, and where it ends. */
  function Convert(t: ParamType, req: Request, pos: nat): (r: Option<(Value, nat)>)
    requires pos < |req.url|
    ensures r.Some? ==> pos < r.value.1 <= |req.url|
  {
    var c := req.url[pos];
    match t
    case INT =>
      if IsDigit(c) || c == '+' || c == '-' then
        match ReadInteger(req.url, pos, -0x8000_0000_0000_0000, 0x7FFF_FFFF_FFFF_FFFF)
        case None => None
        case Some(r) => Some((IntValue(r.0), r.1))
      else None
    case UINT =>
      if IsDigit(c) || c == '+' then
        match ReadInteger(req.url, pos, 0, 0xFFFF_FFFF_FFFF_FFFF)
        case None => None
        case Some(r) => Some((UintValue(r.0), r.1))
      else None
    case DOUBLE =>
      if IsDigit(c) || c == '+' || c == '-' || c == '.' then
        match req.strtod(req.url, pos)
        case None => None
        case Some(r) => if pos < r.1 <= |req.url| then Some((DoubleValue(r.0), r.1)) else None
      else None
    case STRING =>
      var end := SegmentEnd(req.url, pos);
      if end == pos then None else Some((StringValue(req.url[pos..end]), end))
    case PATH => Some((StringValue(req.url[pos..]), |req.url|))
  }

  // ---------------------------------------------------------------- lookup

  /** A rule index, zero for none, with the parameters found on the way to it. */
  datatype Found = Found(rule: nat, params: Params)

  const NOTHING: Found := Found(0, NO_PARAMS)

  /** `update_found`: a rule replaces nothing, or a rule of a larger index. */
  function Better(found: Found, ret: Found): Found {
    if ret.rule != 0 && (found.rule == 0 || found.rule > ret.rule) then ret else found
  }

  /** The URL has the text at `pos`. */
  predicate HasText(url: string, pos: nat, text: string) {
    pos + |text| <= |url| && url[pos..pos + |text|] == text
  }

  /** What it takes to enter a child: the parameters then, and the position behind its text or value. */
  function Enter(child: Node, req: Request, pos: nat, params: Params): (r: Option<(Params, nat)>)
    requires pos < |req.url|
    ensures r.Some? ==> pos <= r.value.1 <= |req.url|
  {
    match child.param
    case None => if HasText(req.url, pos, child.key) then Some((params, pos + |child.key|)) else None
    case Some(t) =>
      match Convert(t, req, pos)
      case None => None
      case Some(v) => Some((params.Push(v.0), v.1))
  }

  /** `Trie::find` below a node. */
  function Find(node: Node, req: Request, pos: nat, params: Params): Found
    requires pos <= |req.url|
    decreases node, 1
  {
    if pos == |req.url| then Found(node.rule, params)
    else FindIn(node.children, req, pos, params, NOTHING)
  }

  /** Its loop over the children, with the best found so far. */
  function FindIn(children: seq<Node>, req: Request, pos: nat, params: Params, found: Found): Found
    requires pos < |req.url|
    decreases children, 0
  {
    if children == [] then found
    else
      var next := match Enter(children[0], req, pos, params)
                  case None => found
                  case Some(e) => Better(found, Find(children[0], req, e.1, e.0));
      FindIn(children[1..], req, pos, params, next)
  }

  // ---------------------------------------------------------------- patterns

  /** One step of a pattern: a character, or a parameter. */
  datatype Piece = Chr(c: char) | Par(t: ParamType)

  /** The tags a pattern may use, in the order in which they are tried. */
  const TAGS: seq<(ParamType, string)> := [(INT, "<int>"), (UINT, "<uint>"), (DOUBLE, "<float>"), (DOUBLE, "<double>"),
                                           (STRING, "<str>"), (STRING, "<string>"), (PATH, "<path>")]

  function TagFrom(url: string, i: nat, k: nat): (tag: Option<(ParamType, nat)>)
    requires i <= |url| && k <= |TAGS|
    ensures tag.Some? ==> 0 < tag.value.1 && i + tag.value.1 <= |url|
    decreases |TAGS| - k
  {
    if k == |TAGS| then None
    else if HasText(url, i, TAGS[k].1) then Some((TAGS[k].0, |TAGS[k].1|))
    else TagFrom(url, i, k + 1)
  }

  /** The steps of a pattern from `i` on; a '<' that opens no tag makes the loop of `add` stand still. */
  function Pieces(url: string, i: nat): Option<seq<Piece>>
    requires i <= |url|
    decreases |url| - i
  {
    if i == |url| then Some([])
    else if url[i] == '<' then
      match TagFrom(url, i, 0)
      case None => None
      case Some(tag) => Prepend(Par(tag.0), Pieces(url, i + tag.1))
    else Prepend(Chr(url[i]), Pieces(url, i + 1))
  }

  function Prepend(p: Piece, rest: Option<seq<Piece>>): Option<seq<Piece>> {
    match rest case None => None case Some(ps) => Some([p] + ps)
  }

  /** Plain pattern matching: the parameters, if the whole URL from `pos` on fits the pattern. */
  function MatchPath(path: seq<Piece>, req: Request, pos: nat, params: Params): Option<Params>
    requires pos <= |req.url|
    decreases |path|
  {
    if path == [] then if pos == |req.url| then Some(params) else None
    else if pos == |req.url| then None
    else match path[0]
      case Chr(c) => if req.url[pos] == c then MatchPath(path[1..], req, pos + 1, params) else None
      case Par(t) =>
        match Convert(t, req, pos)
        case None => None
        case Some(v) => MatchPath(path[1..], req, v.1, params.Push(v.0))
  }

  // ---------------------------------------------------------------- adding a rule

  datatype Added = Done(node: Node) | AlreadyExists

  /** The key character that `add` compares with: the terminating zero of an empty key. */
  function KeyHead(node: Node): char {
    if node.key == "" then '\0' else node.key[0]
  }

  predicate Fits(child: Node, p: Piece) {
    match p case Chr(c) => KeyHead(child) == c case Par(t) => child.param == Some(t)
  }

  /** The first child from `k` on that fits, or their number. */
  function ChildFor(children: seq<Node>, p: Piece, k: nat): (i: nat)
    requires k <= |children|
    ensures k <= i <= |children|
    ensures i < |children| ==> Fits(children[i], p)
    ensures forall j :: k <= j < i ==> !Fits(children[j], p)
    decreases |children| - k
  {
    if k == |children| || Fits(children[k], p) then k else ChildFor(children, p, k + 1)
  }

  function FreshNode(p: Piece, blueprint: nat): Node {
    match p
    case Chr(c) => Node(0, blueprint, [c], None, [])
    case Par(t) => Node(0, INVALID_BP_ID, "", Some(t), [])
  }

  /** The blueprint for a node made for position `i` of the pattern. */
  function BlueprintAt(i: nat, prefix: nat, blueprint: nat): nat {
    if prefix != 0 && blueprint != INVALID_BP_ID && i == prefix then blueprint else INVALID_BP_ID
  }

  /** `Trie::add` from position `i` of a pattern that has steps, below the node that is reached. */
  function Add(node: Node, url: string, i: nat, rule: nat, prefix: nat, blueprint: nat): Added
    requires i <= |url| && Pieces(url, i).Some?
    decreases |url| - i
  {
    if i == |url| then if node.rule != 0 then AlreadyExists else Done(node.(rule := rule))
    else
      var tag := TagFrom(url, i, 0);
      var p := if url[i] == '<' then Par(tag.value.0) else Chr(url[i]);
      var next := if url[i] == '<' then i + tag.value.1 else i + 1;
      var k := ChildFor(node.children, p, 0);
      var child := if k < |node.children| then node.children[k] else FreshNode(p, BlueprintAt(i, prefix, blueprint));
      match Add(child, url, next, rule, prefix, blueprint)
      case AlreadyExists => AlreadyExists
      case Done(c) =>
        Done(node.(children := if k < |node.children| then node.children[k := c] else node.children + [c]))
  }

  // ---------------------------------------------------------------- compression

  predicate IsSimple(node: Node) {
    && node.rule == 0 && node.blueprint == INVALID_BP_ID && |node.children| < 2 && node.param == None
    && forall i :: 0 <= i < |node.children| ==> node.children[i].param == None
  }

  function Size(node: Node): (n: nat)
    ensures n > 0
  {
    1 + SizeAll(node.children)
  }

  function SizeAll(nodes: seq<Node>): nat {
    if nodes == [] then 0 else Size(nodes[0]) + SizeAll(nodes[1..])
  }

  /** A simple node takes over what its only child is, and there is one node less. */
  function Merge(node: Node): (merged: Node)
    requires |node.children| == 1
    ensures Size(merged) < Size(node)
  {
    var c := node.children[0];
    assert Size(node) == 1 + Size(c) + SizeAll(node.children[1..]);
    Node(c.rule, c.blueprint, node.key + c.key, node.param, c.children)
  }

  /** `Trie::optimizeNode`. */
  function OptimizeNode(node: Node): (r: Node)
    decreases Size(node), 0
  {
    if node.children == [] then node
    else if IsSimple(node) then OptimizeNode(Merge(node))
    else node.(children := OptimizeAll(node.children))
  }

  function OptimizeAll(nodes: seq<Node>): (r: seq<Node>)
    ensures |r| == |nodes|
    decreases SizeAll(nodes), 1
  {
    if nodes == [] then [] else [OptimizeNode(nodes[0])] + OptimizeAll(nodes[1..])
  }

  /** `Trie::optimize`: the head itself is never merged. */
  function Optimize(head: Node): Node {
    head.(children := OptimizeAll(head.children))
  }
}
