/**
  Rendering the flat actions of a template of `3rdparty/crow/mustache.h`: the loop with its jumps and
  its context stack prints what a walk of the tree prints.
 */
module MustacheRender {
  import opened Wrappers
  import opened MustacheSpec
  import opened MustacheProof

  // ---------------------------------------------------------------- partners

  /** From index `at` on: every opening tag is before its partner, and blocks lie inside one another or apart. */
  predicate Nested(actions: seq<Action>, at: nat) {
    && (forall k :: 0 <= k < |actions| && Opens(actions[k].kind) ==>
          && at + k < actions[k].pos < at + |actions| && actions[k].hasEndMatch
          && IsPartner(actions[actions[k].pos - at], actions[k].name, at + k))
    && (forall i, j :: 0 <= i < j < |actions| && Opens(actions[i].kind) && Opens(actions[j].kind) ==>
          (at + j < actions[i].pos ==> actions[j].pos < actions[i].pos))
  }

  predicate IsPartner(a: Action, name: string, opening: nat) {
    a == Action(CLOSE_BLOCK, name, opening, false)
  }

  lemma NestedApart(a: seq<Action>, b: seq<Action>, at: nat)
    requires Nested(a, at) && Nested(b, at + |a|)
    ensures Nested(a + b, at)
  {
    var all := a + b;
    forall k | 0 <= k < |all| && Opens(all[k].kind)
      ensures at + k < all[k].pos < at + |all| && all[k].hasEndMatch
      ensures IsPartner(all[all[k].pos - at], all[k].name, at + k)
    {
      if k >= |a| {
        assert all[k] == b[k - |a|];
      }
    }
    forall i, j | 0 <= i < j < |all| && Opens(all[i].kind) && Opens(all[j].kind) && at + j < all[i].pos
      ensures all[j].pos < all[i].pos
    {
      if i >= |a| {
        assert all[i] == b[i - |a|] && all[j] == b[j - |a|];
      }
    }
  }

  lemma NestedAround(open: Tag, body: seq<Action>, at: nat)
    requires Nested(body, at + 1) && Opens(open.kind)
    ensures Nested([Action(open.kind, open.name, at + 1 + |body|, true)] + body
                   + [Action(CLOSE_BLOCK, open.name, at, false)], at)
  {
    var close := Action(CLOSE_BLOCK, open.name, at, false);
    var all := [Action(open.kind, open.name, at + 1 + |body|, true)] + body + [close];
    assert !Opens(close.kind) && all[|body| + 1] == close;
    forall k | 0 <= k < |all| && Opens(all[k].kind)
      ensures at + k < all[k].pos < at + |all| && all[k].hasEndMatch
      ensures IsPartner(all[all[k].pos - at], all[k].name, at + k)
    {
      if k > 0 {
        var a := body[k - 1];
        assert all[k] == a && all[a.pos - at] == body[a.pos - (at + 1)];
      }
    }
    forall i, j | 0 <= i < j < |all| && Opens(all[i].kind) && Opens(all[j].kind) && at + j < all[i].pos
      ensures all[j].pos < all[i].pos
    {
      assert all[j] == body[j - 1];
      assert i > 0 ==> all[i] == body[i - 1];
    }
  }

  lemma {:induction false} FlatIsNested(nodes: seq<Node>, at: nat)
    requires ProperAll(nodes)
    ensures Nested(FlatAll(nodes, at), at)
    decreases nodes
  {
    if nodes == [] {
      NestedSmall(FlatAll(nodes, at), at);
    } else {
      var next := at + Size(nodes[0]);
      var head, tail := Flat(nodes[0], at), FlatAll(nodes[1..], next);
      assert FlatAll(nodes, at) == head + tail && next == at + |head|;
      assert Proper(nodes[0]) && ProperAll(nodes[1..]);
      hide Nested, FlatAll, Flat, ProperAll, SizeAll, Size;
      FlatNodeIsNested(nodes[0], at);
      FlatIsNested(nodes[1..], next);
      NestedApart(head, tail, at);
    }
  }

  lemma {:induction false} FlatNodeIsNested(node: Node, at: nat)
    requires Proper(node)
    ensures Nested(Flat(node, at), at)
    decreases node
  {
    match node {
      case Leaf(_) =>
        NestedSmall(Flat(node, at), at);
      case Block(open, body, close) =>
        var flat := FlatAll(body, at + 1);
        assert Flat(node, at) == [Action(open.kind, open.name, at + 1 + |flat|, true)] + flat
                                 + [Action(CLOSE_BLOCK, open.name, at, false)];
        hide Nested, Flat, FlatAll;
        FlatIsNested(body, at + 1);
        NestedAround(open, flat, at);
    }
  }

  lemma NestedSmall(actions: seq<Action>, at: nat)
    requires forall k :: 0 <= k < |actions| ==> !Opens(actions[k].kind)
    ensures Nested(actions, at)
  {
  }

  /** In every compiled template the block tags are well nested and name each other. */
  lemma CompiledIsNested(tags: seq<Tag>)
    requires Compile(tags).Some?
    ensures Nested(Compile(tags).value, 0)
  {
    CompileIsReading(tags);
    ReadIsProper(tags);
    var nodes := ReadNodes(tags).nodes;
    FlatIsNested(nodes, 0);
    NestedApart(FlatAll(nodes, 0), [LAST_ACTION], 0);
  }

  // ---------------------------------------------------------------- where the loop is in the tree

  /** The nodes still to come at one depth, and the index of the action that ends them. */
  datatype Level = Level(nodes: seq<Node>, end: nat)

  /** The actions from `at` on are the levels, the innermost first, each but the last with its closing tag. */
  predicate Laid(actions: seq<Action>, at: nat, levels: seq<Level>)
    decreases |levels|
  {
    && levels != [] && ProperAll(levels[0].nodes)
    && at + SizeAll(levels[0].nodes) == levels[0].end < |actions|
    && actions[at..levels[0].end] == FlatAll(levels[0].nodes, at)
    && (|levels| > 1 ==>
          actions[levels[0].end].kind == CLOSE_BLOCK && Laid(actions, levels[0].end + 1, levels[1..]))
  }

  /** What is still to be printed: every level but the last ends with a text and gives up one context. */
  function Rest(t: Template, at: nat, levels: seq<Level>, stack: seq<Context>): Option<string>
    requires |t.actions| == |t.fragments| && Laid(t.actions, at, levels) && |stack| >= |levels|
    decreases |levels|
  {
    var here := Walk(t, levels[0].nodes, at, stack);
    if |levels| == 1 then here
    else Cat(Cat(here, Some(t.fragments[levels[0].end])),
             Rest(t, levels[0].end + 1, levels[1..], stack[..|stack| - 1]))
  }

  lemma CatAssociates(a: Option<string>, b: Option<string>, c: Option<string>)
    ensures Cat(Cat(a, b), c) == Cat(a, Cat(b, c))
  {
    if a.Some? && b.Some? && c.Some? {
      Associates(a.value, b.value, c.value);
    }
  }

  /** What the first node at `at` prints behind the text before it. */
  function Own(t: Template, node: Node, at: nat, stack: seq<Context>): Option<string>
    requires at + Size(node) < |t.actions| == |t.fragments| && stack != []
  {
    match node
    case Leaf(_) => LeafText(t, at, stack)
    case Block(open, body, _) => WalkEach(t, body, at + 1, Views(open, stack), stack)
  }

  function Behind(levels: seq<Level>): seq<Level>
    requires levels != [] && levels[0].nodes != []
  {
    [Level(levels[0].nodes[1..], levels[0].end)] + levels[1..]
  }

  /** The action at `at` is the head of the first node; behind that node the other levels follow. */
  lemma LaidHead(actions: seq<Action>, at: nat, levels: seq<Level>)
    requires Laid(actions, at, levels) && levels[0].nodes != []
    ensures at + Size(levels[0].nodes[0]) <= levels[0].end
    ensures actions[at..at + Size(levels[0].nodes[0])] == Flat(levels[0].nodes[0], at)
    ensures actions[at] == Flat(levels[0].nodes[0], at)[0]
    ensures Laid(actions, at + Size(levels[0].nodes[0]), Behind(levels))
  {
    hide Laid, FlatAll, Flat, SizeAll, Size, ProperAll;
    LaidParts(actions, at, levels);
    var nodes, end, n := levels[0].nodes, levels[0].end, Size(levels[0].nodes[0]);
    var head, tail := Flat(nodes[0], at), FlatAll(nodes[1..], at + n);
    FlatParts(nodes, at);
    SliceSplits(actions, at, end, head, tail);
    LaidIs(actions, at + n, nodes[1..], end, levels[1..]);
  }

  lemma LaidParts(actions: seq<Action>, at: nat, levels: seq<Level>)
    requires Laid(actions, at, levels)
    ensures levels != [] && ProperAll(levels[0].nodes)
    ensures at + SizeAll(levels[0].nodes) == levels[0].end < |actions|
    ensures actions[at..levels[0].end] == FlatAll(levels[0].nodes, at)
    ensures levels[1..] != [] ==>
      actions[levels[0].end].kind == CLOSE_BLOCK && Laid(actions, levels[0].end + 1, levels[1..])
  {
  }

  lemma FlatParts(nodes: seq<Node>, at: nat)
    requires nodes != [] && ProperAll(nodes)
    ensures FlatAll(nodes, at) == Flat(nodes[0], at) + FlatAll(nodes[1..], at + Size(nodes[0]))
    ensures Proper(nodes[0]) && ProperAll(nodes[1..]) && SizeAll(nodes) == Size(nodes[0]) + SizeAll(nodes[1..])
  {
  }

  lemma SliceSplits<T>(s: seq<T>, at: nat, end: nat, a: seq<T>, b: seq<T>)
    requires at <= end <= |s| && s[at..end] == a + b && a != []
    ensures s[at..at + |a|] == a && s[at + |a|..end] == b && s[at] == a[0]
  {
    var n := |a|;
    assert s[at..end][..n] == s[at..at + n] && (a + b)[..n] == a;
    assert s[at..end][n..] == s[at + n..end] && (a + b)[n..] == b;
    assert s[at..at + n][0] == s[at];
  }

  lemma LaidIs(actions: seq<Action>, at: nat, nodes: seq<Node>, end: nat, outer: seq<Level>)
    requires ProperAll(nodes) && at + SizeAll(nodes) == end < |actions| && actions[at..end] == FlatAll(nodes, at)
    requires outer != [] ==> actions[end].kind == CLOSE_BLOCK && Laid(actions, end + 1, outer)
    ensures Laid(actions, at, [Level(nodes, end)] + outer)
  {
    assert ([Level(nodes, end)] + outer)[1..] == outer;
  }

  lemma RestHead(t: Template, at: nat, levels: seq<Level>, stack: seq<Context>)
    requires |t.actions| == |t.fragments| && Laid(t.actions, at, levels) && |stack| >= |levels|
    requires levels[0].nodes != []
    ensures at + Size(levels[0].nodes[0]) < |t.actions|
    ensures Laid(t.actions, at + Size(levels[0].nodes[0]), Behind(levels))
    ensures Rest(t, at, levels, stack) ==
            Cat(Cat(Some(t.fragments[at]), Own(t, levels[0].nodes[0], at, stack)),
                Rest(t, at + Size(levels[0].nodes[0]), Behind(levels), stack))
  {
    LaidHead(t.actions, at, levels);
    var node, next := levels[0].nodes[0], at + Size(levels[0].nodes[0]);
    var first := Cat(Some(t.fragments[at]), Own(t, node, at, stack));
    var here := Walk(t, levels[0].nodes[1..], next, stack);
    assert Walk(t, levels[0].nodes, at, stack) == Cat(first, here);
    assert Behind(levels)[1..] == levels[1..];
    if |levels| > 1 {
      var text := Some(t.fragments[levels[0].end]);
      var more := Rest(t, levels[0].end + 1, levels[1..], stack[..|stack| - 1]);
      CatAssociates(first, here, text);
      CatAssociates(first, Cat(here, text), more);
    }
  }

  /** Into the body of a block that is rendered for one context. */
  function Inside(levels: seq<Level>, at: nat): seq<Level>
    requires levels != [] && levels[0].nodes != [] && levels[0].nodes[0].Block?
  {
    [Level(levels[0].nodes[0].body, at + 1 + SizeAll(levels[0].nodes[0].body))] + Behind(levels)
  }

  lemma LaidInside(actions: seq<Action>, at: nat, levels: seq<Level>)
    requires Laid(actions, at, levels) && levels[0].nodes != [] && levels[0].nodes[0].Block?
    ensures Laid(actions, at + 1, Inside(levels, at))
    ensures var end := at + 1 + SizeAll(levels[0].nodes[0].body);
      && actions[at] == Action(levels[0].nodes[0].open.kind, levels[0].nodes[0].open.name, end, true)
      && actions[at + 1..end] == FlatAll(levels[0].nodes[0].body, at + 1)
  {
    hide Laid, FlatAll, Flat, SizeAll, Size;
    LaidParts(actions, at, levels);
    LaidHead(actions, at, levels);
    var node := levels[0].nodes[0];
    FlatParts(levels[0].nodes, at);
    BlockParts(node, at);
    var end := at + 1 + SizeAll(node.body);
    var flat := FlatAll(node.body, at + 1);
    BlockSlices(actions, at, end, Action(node.open.kind, node.open.name, end, true), flat,
                Action(CLOSE_BLOCK, node.close.name, at, false));
    LaidIs(actions, at + 1, node.body, end, Behind(levels));
  }

  lemma BlockSlices<T>(s: seq<T>, at: nat, end: nat, first: T, body: seq<T>, last: T)
    requires end == at + 1 + |body| < |s| && s[at..end + 1] == [first] + body + [last]
    ensures s[at] == first && s[at + 1..end] == body && s[end] == last
  {
    assert s[at..end + 1] == [first] + (body + [last]);
    SliceSplits(s, at, end + 1, [first], body + [last]);
    if body == [] {
      assert s[at + 1..end + 1][0] == s[end];
    } else {
      SliceSplits(s, at + 1, end + 1, body, [last]);
      assert s[end..end + 1][0] == s[end];
    }
  }

  lemma RestInside(t: Template, at: nat, levels: seq<Level>, stack: seq<Context>, view: Context)
    requires |t.actions| == |t.fragments| && Laid(t.actions, at, levels) && |stack| >= |levels|
    requires levels[0].nodes != [] && levels[0].nodes[0].Block? && Views(levels[0].nodes[0].open, stack) == [view]
    ensures Laid(t.actions, at + 1, Inside(levels, at))
    ensures Rest(t, at, levels, stack) ==
            Cat(Some(t.fragments[at]), Rest(t, at + 1, Inside(levels, at), stack + [view]))
  {
    hide Walk, Rest, Laid, SizeAll, Size, WalkEach, Flat, FlatAll, Cat, Views;
    LaidParts(t.actions, at, levels);
    RestHead(t, at, levels, stack);
    LaidInside(t.actions, at, levels);
    var node := levels[0].nodes[0];
    var end := at + 1 + SizeAll(node.body);
    BlockSize(node);
    WalkOnce(t, node.body, at + 1, view, stack);
    var once := Cat(Walk(t, node.body, at + 1, stack + [view]), Some(t.fragments[end]));
    RestOfBody(t, at + 1, Inside(levels, at), stack + [view]);
    assert (stack + [view])[..|stack|] == stack;
    assert Inside(levels, at)[1..] == Behind(levels);
    CatAssociates(Some(t.fragments[at]), once, Rest(t, end + 1, Behind(levels), stack));
  }

  lemma BlockParts(node: Node, at: nat)
    requires node.Block? && Proper(node)
    ensures Size(node) == SizeAll(node.body) + 2 && ProperAll(node.body)
            && |FlatAll(node.body, at + 1)| == SizeAll(node.body)
    ensures Flat(node, at) == [Action(node.open.kind, node.open.name, at + 1 + SizeAll(node.body), true)]
                              + FlatAll(node.body, at + 1) + [Action(CLOSE_BLOCK, node.close.name, at, false)]
  {
  }

  lemma BlockSize(node: Node)
    requires node.Block?
    ensures Size(node) == SizeAll(node.body) + 2
  {
  }

  lemma RestOfBody(t: Template, at: nat, levels: seq<Level>, stack: seq<Context>)
    requires |t.actions| == |t.fragments| && Laid(t.actions, at, levels) && |stack| >= |levels| > 1
    ensures levels[0].end < |t.actions| && Laid(t.actions, levels[0].end + 1, levels[1..])
    ensures at + SizeAll(levels[0].nodes) == levels[0].end
    ensures Rest(t, at, levels, stack) ==
            Cat(Cat(Walk(t, levels[0].nodes, at, stack), Some(t.fragments[levels[0].end])),
                Rest(t, levels[0].end + 1, levels[1..], stack[..|stack| - 1]))
  {
    hide Walk, SizeAll, FlatAll;
  }

  lemma WalkOnce(t: Template, body: seq<Node>, at: nat, view: Context, stack: seq<Context>)
    requires at + SizeAll(body) < |t.actions| == |t.fragments| && stack != []
    ensures WalkEach(t, body, at, [view], stack) ==
            Cat(Walk(t, body, at, stack + [view]), Some(t.fragments[at + SizeAll(body)]))
  {
    hide Walk;
    var once := Cat(Walk(t, body, at, stack + [view]), Some(t.fragments[at + SizeAll(body)]));
    assert [view][1..] == [];
    assert WalkEach(t, body, at, [], stack) == Some("");
    if once.Some? {
      assert once.value + "" == once.value;
    }
  }

  lemma RestClose(t: Template, at: nat, levels: seq<Level>, stack: seq<Context>)
    requires |t.actions| == |t.fragments| && Laid(t.actions, at, levels) && |stack| >= |levels| > 1
    requires levels[0].nodes == []
    ensures at == levels[0].end && t.actions[at].kind == CLOSE_BLOCK
    ensures Rest(t, at, levels, stack) ==
            Cat(Some(t.fragments[at]), Rest(t, at + 1, levels[1..], stack[..|stack| - 1]))
  {
    assert Walk(t, [], at, stack) == Some("");
    assert "" + t.fragments[at] == t.fragments[at];
  }

  // ---------------------------------------------------------------- one round of the loop

  /** Where a rendering is: the next action, the tree from there on, the stack and the output. */
  datatype Place = Place(at: nat, levels: seq<Level>, stack: seq<Context>, out: string)

  /** Above the contexts in `base` there is one more for each block that was entered. */
  predicate Stands(t: Template, p: Place, base: seq<Context>, end: nat) {
    && |t.actions| == |t.fragments| && base != [] && Laid(t.actions, p.at, p.levels)
    && |p.stack| == |base| + |p.levels| - 1 && p.stack[..|base|] == base
    && p.levels[|p.levels| - 1].end == end
  }

  /** What will have been printed in the end, but for the last text. */
  function Total(t: Template, p: Place): Option<string>
    requires |t.actions| == |t.fragments| && Laid(t.actions, p.at, p.levels) && |p.stack| >= |p.levels|
  {
    Cat(Some(p.out), Rest(t, p.at, p.levels, p.stack))
  }

  lemma {:induction false} LaidEnds(actions: seq<Action>, at: nat, levels: seq<Level>)
    requires Laid(actions, at, levels)
    ensures at <= levels[|levels| - 1].end < |actions|
    ensures |levels| > 1 ==> at < levels[|levels| - 1].end
    decreases |levels|
  {
    if |levels| > 1 {
      LaidEnds(actions, levels[0].end + 1, levels[1..]);
    }
  }

  /** At a node, the action is that of its tag; at the end of an inner level, it is a closing tag. */
  lemma ActionHere(t: Template, p: Place, base: seq<Context>, end: nat)
    requires Stands(t, p, base, end) && p.at < end
    ensures p.at < |t.actions| && p.levels != []
    ensures t.actions[p.at].kind == CLOSE_BLOCK <==> p.levels[0].nodes == []
    ensures p.levels[0].nodes == [] ==> |p.levels| > 1
    ensures p.levels[0].nodes != [] ==> (Opens(t.actions[p.at].kind) <==> p.levels[0].nodes[0].Block?)
  {
    LaidEnds(t.actions, p.at, p.levels);
    if p.levels[0].nodes == [] {
      assert p.at == p.levels[0].end;
    } else {
      LaidHead(t.actions, p.at, p.levels);
      assert Proper(p.levels[0].nodes[0]);
    }
  }

  /** Past the whole first node, once what it prints has been printed. */
  lemma Past(t: Template, p: Place, base: seq<Context>, end: nat, own: Option<string>)
    requires Stands(t, p, base, end) && p.levels[0].nodes != []
    requires p.at + Size(p.levels[0].nodes[0]) < |t.actions| && own == Own(t, p.levels[0].nodes[0], p.at, p.stack)
    ensures own == None ==> Total(t, p) == None
    ensures own.Some? ==>
      var q := Place(p.at + Size(p.levels[0].nodes[0]), Behind(p.levels), p.stack,
                     p.out + t.fragments[p.at] + own.value);
      Stands(t, q, base, end) && q.at <= end && Total(t, q) == Total(t, p)
  {
    hide Rest, Own, Laid, Size, Flat, FlatAll;
    LaidParts(t.actions, p.at, p.levels);
    RestHead(t, p.at, p.levels, p.stack);
    var next := p.at + Size(p.levels[0].nodes[0]);
    var more := Rest(t, next, Behind(p.levels), p.stack);
    if own.Some? {
      LaidEnds(t.actions, next, Behind(p.levels));
      CatAssociates(Some(p.out), Cat(Some(t.fragments[p.at]), own), more);
      Associates(p.out, t.fragments[p.at], own.value);
    }
  }

  /** Into a block that is rendered for one context. */
  lemma Into(t: Template, p: Place, base: seq<Context>, end: nat, view: Context)
    requires Stands(t, p, base, end) && p.levels[0].nodes != [] && p.levels[0].nodes[0].Block?
    requires p.stack != [] && Views(p.levels[0].nodes[0].open, p.stack) == [view] && p.at < |t.fragments|
    ensures
      var q := Place(p.at + 1, Inside(p.levels, p.at), p.stack + [view], p.out + t.fragments[p.at]);
      Stands(t, q, base, end) && q.at <= end && Total(t, q) == Total(t, p)
  {
    hide Rest, Views;
    RestInside(t, p.at, p.levels, p.stack, view);
    LaidEnds(t.actions, p.at + 1, Inside(p.levels, p.at));
    CatAssociates(Some(p.out), Some(t.fragments[p.at]), Rest(t, p.at + 1, Inside(p.levels, p.at), p.stack + [view]));
  }

  /** Out of a block at its closing tag. */
  lemma OutOf(t: Template, p: Place, base: seq<Context>, end: nat)
    requires Stands(t, p, base, end) && p.levels[0].nodes == [] && |p.levels| > 1 && p.at < |t.fragments|
    ensures
      var q := Place(p.at + 1, p.levels[1..], p.stack[..|p.stack| - 1], p.out + t.fragments[p.at]);
      Stands(t, q, base, end) && q.at <= end && Total(t, q) == Total(t, p)
  {
    RestClose(t, p.at, p.levels, p.stack);
    LaidEnds(t.actions, p.at + 1, p.levels[1..]);
    CatAssociates(Some(p.out), Some(t.fragments[p.at]), Rest(t, p.at + 1, p.levels[1..], p.stack[..|p.stack| - 1]));
  }

  /** The start of a rendering, and its end. */
  lemma Begins(t: Template, p: Place, base: seq<Context>, end: nat)
    requires |t.actions| == |t.fragments| && |p.levels| == 1 && Laid(t.actions, p.at, p.levels)
    requires p.stack == base != [] && p.levels[0].end == end
    ensures Stands(t, p, base, end) && p.at <= end
    ensures Total(t, p) == Cat(Some(p.out), Walk(t, p.levels[0].nodes, p.at, base))
  {
  }

  lemma Ends(t: Template, p: Place, base: seq<Context>, end: nat)
    requires Stands(t, p, base, end) && p.at == end
    ensures p.stack == base && Total(t, p) == Some(p.out) && end < |t.actions| == |t.fragments|
  {
    LaidEnds(t.actions, p.at, p.levels);
    assert p.levels[0].nodes == [];
    assert p.out + "" == p.out;
  }

  /** What the loop finds at the opening tag of a block: its partner. */
  lemma BlockHere(t: Template, p: Place, base: seq<Context>, end: nat)
    requires Stands(t, p, base, end) && p.levels[0].nodes != [] && p.levels[0].nodes[0].Block?
    ensures var node := p.levels[0].nodes[0];
      var pos := p.at + 1 + SizeAll(node.body);
      && p.at < pos == p.at + Size(node) - 1 < end < |t.actions|
      && t.actions[p.at] == Action(node.open.kind, node.open.name, pos, true) && Opens(node.open.kind)
  {
    hide Laid, Flat, FlatAll, SizeAll, Size, Opens, ProperAll;
    LaidParts(t.actions, p.at, p.levels);
    var node := p.levels[0].nodes[0];
    BlockSize(node);
    FlatParts(p.levels[0].nodes, p.at);
    LaidHead(t.actions, p.at, p.levels);
    LaidEnds(t.actions, p.at + Size(node), Behind(p.levels));
    LaidInside(t.actions, p.at, p.levels);
  }

  /** And the body between the two. */
  lemma BodyHere(t: Template, p: Place, base: seq<Context>, end: nat)
    requires Stands(t, p, base, end) && p.levels[0].nodes != [] && p.levels[0].nodes[0].Block?
    ensures var body := p.levels[0].nodes[0].body;
      Laid(t.actions, p.at + 1, [Level(body, p.at + 1 + SizeAll(body))])
  {
    LaidInside(t.actions, p.at, p.levels);
    LaidAlone(t.actions, p.at + 1, Inside(p.levels, p.at));
  }

  lemma LaidAlone(actions: seq<Action>, at: nat, levels: seq<Level>)
    requires Laid(actions, at, levels)
    ensures Laid(actions, at, [levels[0]])
  {
  }

  /** One view more of a body. */
  lemma WalkNext(t: Template, body: seq<Node>, at: nat, views: seq<Context>, i: nat, stack: seq<Context>)
    requires at + SizeAll(body) < |t.actions| == |t.fragments| && stack != [] && i < |views|
    ensures WalkEach(t, body, at, views[i..], stack) ==
            Cat(Cat(Walk(t, body, at, stack + [views[i]]), Some(t.fragments[at + SizeAll(body)])),
                WalkEach(t, body, at, views[i + 1..], stack))
  {
    hide Walk;
    assert views[i..][0] == views[i] && views[i..][1..] == views[i + 1..];
  }

  lemma WalkNone(t: Template, body: seq<Node>, at: nat, stack: seq<Context>)
    requires at + SizeAll(body) < |t.actions| == |t.fragments| && stack != []
    ensures WalkEach(t, body, at, [], stack) == Some("")
  {
  }

  /** What the loop may read at the first node, and what a node that is no block prints. */
  lemma Heads(t: Template, p: Place, base: seq<Context>, end: nat)
    requires Stands(t, p, base, end) && p.levels[0].nodes != []
    ensures p.at < end && p.at + Size(p.levels[0].nodes[0]) < |t.actions| == |t.fragments| && p.stack != []
    ensures Opens(t.actions[p.at].kind) <==> p.levels[0].nodes[0].Block?
    ensures p.levels[0].nodes[0].Leaf? ==>
      Size(p.levels[0].nodes[0]) == 1 && Own(t, p.levels[0].nodes[0], p.at, p.stack) == LeafText(t, p.at, p.stack)
  {
    hide Laid, Flat, SizeAll, Opens, LeafText, WalkEach, Views;
    LaidParts(t.actions, p.at, p.levels);
    LaidHead(t.actions, p.at, p.levels);
    LaidEnds(t.actions, p.at + Size(p.levels[0].nodes[0]), Behind(p.levels));
    ActionHere(t, p, base, end);
  }

  /** A compiled template is laid out as the tree that its tags are read as. */
  lemma CompiledIsLaid(tags: seq<Tag>)
    requires Compile(tags).Some?
    ensures ReadNodes(tags).Read? && Compile(tags).value != []
    ensures Laid(Compile(tags).value, 0, [Level(ReadNodes(tags).nodes, |Compile(tags).value| - 1)])
  {
    CompileIsReading(tags);
    ReadIsProper(tags);
    var nodes := ReadNodes(tags).nodes;
    var actions := FlatAll(nodes, 0) + [LAST_ACTION];
    assert actions[0..|actions| - 1] == FlatAll(nodes, 0);
    LaidIs(actions, 0, nodes, |actions| - 1, []);
    assert [Level(nodes, |actions| - 1)] + [] == [Level(nodes, |actions| - 1)];
  }
}
