/**
  Templates of `3rdparty/crow/mustache.h`: how a list of tags is compiled into flat actions that name
  their partners, and what a template means as a tree of blocks.
 */
module MustacheSpec {
  import opened Wrappers

  datatype Kind = IGNORE | TAG | UNESCAPE_TAG | OPEN_BLOCK | CLOSE_BLOCK | ELSE_BLOCK

  /** A tag as the scanner finds it. */
  datatype Tag = Tag(kind: Kind, name: string)

  datatype Action = Action(kind: Kind, name: string, pos: nat, hasEndMatch: bool) {
    predicate MissingEndPair() {
      (kind == OPEN_BLOCK || kind == ELSE_BLOCK) && !hasEndMatch
    }
  }

  // ---------------------------------------------------------------- compiling

  /** The actions so far, and the blocks that are open: the innermost last. */
  datatype Compiling = Compiling(actions: seq<Action>, blocks: seq<nat>) {
    predicate Valid() {
      forall k :: 0 <= k < |blocks| ==> blocks[k] < |actions|
    }
  }

  predicate Opens(kind: Kind) {
    kind == OPEN_BLOCK || kind == ELSE_BLOCK
  }

  /** One tag of `parse`; `None` for the exceptions. */
  function CompileTag(c: Compiling, tag: Tag): (r: Option<Compiling>)
    requires c.Valid()
    ensures r.Some? ==> r.value.Valid()
  {
    var n := |c.actions|;
    if Opens(tag.kind) then
      Some(Compiling(c.actions + [Action(tag.kind, tag.name, 0, false)], c.blocks + [n]))
    else if tag.kind == CLOSE_BLOCK then
      if c.blocks == [] then None
      else
        var m := c.blocks[|c.blocks| - 1];
        if c.actions[m].name != tag.name then None
        else Some(Compiling(c.actions[m := c.actions[m].(pos := n, hasEndMatch := true)]
                            + [Action(CLOSE_BLOCK, tag.name, m, false)], c.blocks[..|c.blocks| - 1]))
    else Some(Compiling(c.actions + [Action(tag.kind, tag.name, 0, false)], c.blocks))
  }

  function CompileTags(c: Compiling, tags: seq<Tag>): (r: Option<Compiling>)
    requires c.Valid()
    ensures r.Some? ==> r.value.Valid()
    decreases |tags|
  {
    if tags == [] then Some(c)
    else match CompileTag(c, tags[0])
      case None => None
      case Some(next) => CompileTags(next, tags[1..])
  }

  const LAST_ACTION: Action := Action(IGNORE, "", 0, false)

  /** `template_t::parse`: all tags, one more action for the text behind them, and no block left open. */
  function Compile(tags: seq<Tag>): Option<seq<Action>> {
    match CompileTags(Compiling([], []), tags)
    case None => None
    case Some(c) =>
      if exists k :: 0 <= k < |c.actions| && c.actions[k].MissingEndPair() then None
      else Some(c.actions + [LAST_ACTION])
  }

  // ---------------------------------------------------------------- templates as trees

  /** A tag, or a block from its opening to its closing tag. */
  datatype Node = Leaf(tag: Tag) | Block(open: Tag, body: seq<Node>, close: Tag)

  function Size(node: Node): (n: nat)
    ensures n > 0
  {
    match node case Leaf(_) => 1 case Block(_, body, _) => SizeAll(body) + 2
  }

  function SizeAll(nodes: seq<Node>): (n: nat)
    ensures n >= |nodes|
  {
    if nodes == [] then 0 else Size(nodes[0]) + SizeAll(nodes[1..])
  }

  /** Blocks are opened by a block tag and closed by one of the same name. */
  predicate Proper(node: Node) {
    match node
    case Leaf(tag) => !Opens(tag.kind) && tag.kind != CLOSE_BLOCK
    case Block(open, body, close) =>
      Opens(open.kind) && close == Tag(CLOSE_BLOCK, open.name) && ProperAll(body)
  }

  predicate ProperAll(nodes: seq<Node>) {
    nodes == [] || (Proper(nodes[0]) && ProperAll(nodes[1..]))
  }

  function Tags(node: Node): seq<Tag> {
    match node
    case Leaf(tag) => [tag]
    case Block(open, body, close) => [open] + TagsAll(body) + [close]
  }

  function TagsAll(nodes: seq<Node>): seq<Tag> {
    if nodes == [] then [] else Tags(nodes[0]) + TagsAll(nodes[1..])
  }

  /** The actions of a tree whose first action has index `at`: the tags of a block name each other. */
  function Flat(node: Node, at: nat): (r: seq<Action>)
    ensures |r| == Size(node)
    decreases node
  {
    match node
    case Leaf(tag) => [Action(tag.kind, tag.name, 0, false)]
    case Block(open, body, close) =>
      [Action(open.kind, open.name, at + 1 + SizeAll(body), true)] + FlatAll(body, at + 1)
      + [Action(CLOSE_BLOCK, close.name, at, false)]
  }

  function FlatAll(nodes: seq<Node>, at: nat): (r: seq<Action>)
    ensures |r| == SizeAll(nodes)
    decreases nodes
  {
    if nodes == [] then [] else Flat(nodes[0], at) + FlatAll(nodes[1..], at + Size(nodes[0]))
  }

  // ---------------------------------------------------------------- contexts

  /** `json::wvalue` without functions; a number is its printed form. */
  datatype Context =
    | Null | False | True | Number(text: string) | Str(s: string) | List(items: seq<Context>)
    | Object(fields: map<string, Context>)

  /** The names of a dotted name. */
  function Names(name: string): (names: seq<string>)
    ensures names != []
  {
    Split(name, 0)
  }

  function Split(name: string, from: nat): (names: seq<string>)
    requires from <= |name|
    ensures names != []
    decreases |name| - from
  {
    var dot := DotFrom(name, from);
    if dot == |name| then [name[from..]] else [name[from..dot]] + Split(name, dot + 1)
  }

  function DotFrom(name: string, from: nat): (dot: nat)
    requires from <= |name|
    ensures from <= dot <= |name|
    ensures dot < |name| ==> name[dot] == '.'
    ensures forall k :: from <= k < dot ==> name[k] != '.'
    decreases |name| - from
  {
    if from == |name| || name[from] == '.' then from else DotFrom(name, from + 1)
  }

  /** From a context through the fields named. */
  function Follow(view: Context, names: seq<string>): Option<Context> {
    if names == [] then Some(view)
    else if view.Object? && names[0] in view.fields then Follow(view.fields[names[0]], names[1..])
    else None
  }

  /** The innermost context of the stack from which the names lead somewhere, or only the innermost is tried. */
  function Search(names: seq<string>, stack: seq<Context>, onlyFirst: bool): Option<Context> {
    if stack == [] then None
    else match Follow(stack[|stack| - 1], names)
      case Some(view) => Some(view)
      case None => if onlyFirst then None else Search(names, stack[..|stack| - 1], onlyFirst)
  }

  /** `find_context`. A name without a dot is looked for in the whole stack. */
  function FindContext(name: string, stack: seq<Context>, onlyFirst: bool): Option<Context>
    requires stack != []
  {
    if name == "." then Some(stack[|stack| - 1])
    else if '.' !in name then Search([name], stack, false)
    else Search(Names(name), stack, onlyFirst)
  }

  // ---------------------------------------------------------------- rendering

  function EscapeChar(c: char): string {
    match c
    case '&' => "&amp;"
    case '<' => "&lt;"
    case '>' => "&gt;"
    case '"' => "&quot;"
    case '\'' => "&#39;"
    case '/' => "&#x2F;"
    case '`' => "&#x60;"
    case '=' => "&#x3D;"
    case _ => [c]
  }

  function Escape(s: string): string {
    if s == "" then "" else EscapeChar(s[0]) + Escape(s[1..])
  }

  /** A compiled template: the text before every action, and the actions. */
  datatype Template = Template(fragments: seq<string>, actions: seq<Action>)

  /** The backward scan of `isTagInsideObjectBlock`, with the top of the stack an object. */
  function InsideBlock(actions: seq<Action>, i: nat, closed: int): bool
    requires i <= |actions|
  {
    if i == 0 then false
    else if actions[i - 1].kind == OPEN_BLOCK then closed == 0 || InsideBlock(actions, i - 1, closed - 1)
    else if actions[i - 1].kind == CLOSE_BLOCK then InsideBlock(actions, i - 1, closed + 1)
    else InsideBlock(actions, i - 1, closed)
  }

  /** What a tag that is no block prints, or `None` for the exception. */
  function LeafText(t: Template, i: nat, stack: seq<Context>): Option<string>
    requires i < |t.actions| && stack != []
  {
    var a := t.actions[i];
    if a.kind != TAG && a.kind != UNESCAPE_TAG then Some("")
    else
      var top := stack[|stack| - 1];
      match FindContext(a.name, stack, top.Object? && InsideBlock(t.actions, i, 0))
      case None => Some("")
      case Some(ctx) =>
        match ctx
        case False => Some("false")
        case True => Some("true")
        case Number(text) => Some(text)
        case Str(s) => Some(if a.kind == TAG then Escape(s) else s)
        case _ => None
  }

  function Cat(a: Option<string>, b: Option<string>): Option<string> {
    if a.Some? && b.Some? then Some(a.value + b.value) else None
  }

  /** The contexts for which the body of a block is rendered. */
  function Views(open: Tag, stack: seq<Context>): seq<Context>
    requires stack != []
  {
    var found := FindContext(open.name, stack, false);
    if open.kind == OPEN_BLOCK then
      match found
      case None => []
      case Some(ctx) =>
        match ctx
        case List(items) => items
        case Null => []
        case False => []
        case _ => [ctx]
    else
      match found
      case None => [Null]
      case Some(ctx) =>
        match ctx
        case List(items) => if items == [] then [Null] else []
        case Null => [Null]
        case False => [Null]
        case _ => []
  }

  /** What a tree prints: its tags in order, and the body of a block once for every view. */
  function Walk(t: Template, nodes: seq<Node>, at: nat, stack: seq<Context>): Option<string>
    requires at + SizeAll(nodes) < |t.actions| == |t.fragments| && stack != []
    decreases nodes, 0
  {
    if nodes == [] then Some("")
    else
      var text := Some(t.fragments[at]);
      var own := match nodes[0]
                 case Leaf(_) => LeafText(t, at, stack)
                 case Block(open, body, _) =>
                   assert Size(nodes[0]) == SizeAll(body) + 2;
                   WalkEach(t, body, at + 1, Views(open, stack), stack);
      Cat(Cat(text, own), Walk(t, nodes[1..], at + Size(nodes[0]), stack))
  }

  /** A body for one view after the other, each time up to the text before its closing tag. */
  function WalkEach(t: Template, body: seq<Node>, at: nat, views: seq<Context>, stack: seq<Context>): Option<string>
    requires at + SizeAll(body) < |t.actions| == |t.fragments| && stack != []
    decreases body, 1, |views|
  {
    if views == [] then Some("")
    else Cat(Cat(Walk(t, body, at, stack + [views[0]]), Some(t.fragments[at + SizeAll(body)])),
             WalkEach(t, body, at, views[1..], stack))
  }
}
