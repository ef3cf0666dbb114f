/**
  The trie of `3rdparty/crow/routing.h` against plain pattern matching: a trie stands for the list of
  patterns that lead to a rule, compression keeps that list, `add` adds one pattern to it, and a
  lookup finds the least rule among the patterns in the list that match the URL.
 */
module RouterProof {
  import opened Wrappers
  import opened RouterSpec

  /** A pattern with the rule it leads to. */
  type Route = (seq<Piece>, nat)

  function Chars(s: string): (ps: seq<Piece>)
    ensures |ps| == |s| && forall i :: 0 <= i < |s| ==> ps[i] == Chr(s[i])
  {
    seq(|s|, i requires 0 <= i < |s| => Chr(s[i]))
  }

  /** The steps that lead into a node. */
  function Label(node: Node): seq<Piece> {
    match node.param case None => Chars(node.key) case Some(t) => [Par(t)]
  }

  function Prefixed(label_: seq<Piece>, routes: seq<Route>): (r: seq<Route>)
    ensures |r| == |routes|
    ensures forall i :: 0 <= i < |r| ==> r[i] == (label_ + routes[i].0, routes[i].1)
  {
    seq(|routes|, i requires 0 <= i < |routes| => (label_ + routes[i].0, routes[i].1))
  }

  /** The patterns below a node that lead to a rule, in the order in which `find` meets them. */
  function Routes(node: Node): seq<Route>
    decreases node, 1
  {
    (if node.rule == 0 then [] else [([], node.rule)]) + RoutesIn(node.children)
  }

  function RoutesIn(children: seq<Node>): seq<Route>
    decreases children, 0
  {
    if children == [] then []
    else Prefixed(Label(children[0]), Routes(children[0])) + RoutesIn(children[1..])
  }

  /** Every node that can be entered has a text or a parameter, as `add` makes them. */
  predicate Keyed(node: Node)
    decreases node, 1
  {
    KeyedAll(node.children)
  }

  predicate KeyedAll(children: seq<Node>)
    decreases children, 0
  {
    children == [] ||
    ((children[0].param.Some? || children[0].key != "") && Keyed(children[0]) && KeyedAll(children[1..]))
  }

  // ---------------------------------------------------------------- the best of the matching routes

  function Outcome(route: Route, req: Request, pos: nat, params: Params): Found
    requires pos <= |req.url|
  {
    match MatchPath(route.0, req, pos, params) case None => NOTHING case Some(ps) => Found(route.1, ps)
  }

  /** Plain matching, one pattern after the other, keeping the best. */
  function Best(routes: seq<Route>, req: Request, pos: nat, params: Params, found: Found): Found
    requires pos <= |req.url|
  {
    if routes == [] then found
    else Best(routes[1..], req, pos, params, Better(found, Outcome(routes[0], req, pos, params)))
  }

  lemma {:induction false} BestOfBoth(a: seq<Route>, b: seq<Route>, req: Request, pos: nat, params: Params,
                                      found: Found)
    requires pos <= |req.url|
    ensures Best(a + b, req, pos, params, found) == Best(b, req, pos, params, Best(a, req, pos, params, found))
    decreases |a|
  {
    if a == [] {
      assert a + b == b;
    } else {
      assert (a + b)[1..] == a[1..] + b;
      BestOfBoth(a[1..], b, req, pos, params, Better(found, Outcome(a[0], req, pos, params)));
    }
  }

  /** What was found before does not change how the rest compare. */
  lemma {:induction false} BestFrom(routes: seq<Route>, req: Request, pos: nat, params: Params, found: Found)
    requires pos <= |req.url|
    ensures Best(routes, req, pos, params, found) == Better(found, Best(routes, req, pos, params, NOTHING))
    decreases |routes|
  {
    if routes != [] {
      var first := Outcome(routes[0], req, pos, params);
      BestFrom(routes[1..], req, pos, params, Better(found, first));
      BestFrom(routes[1..], req, pos, params, Better(NOTHING, first));
    }
  }

  // ---------------------------------------------------------------- entering a child

  /** Matching a text piece by piece is comparing it. */
  lemma {:induction false} MatchChars(text: string, path: seq<Piece>, req: Request, pos: nat, params: Params)
    requires pos <= |req.url|
    ensures HasText(req.url, pos, text) ==>
      MatchPath(Chars(text) + path, req, pos, params) == MatchPath(path, req, pos + |text|, params)
    ensures !HasText(req.url, pos, text) ==> MatchPath(Chars(text) + path, req, pos, params) == None
    decreases |text|
  {
    if text == "" {
      assert Chars(text) + path == path;
    } else {
      var whole := Chars(text) + path;
      assert whole[1..] == Chars(text[1..]) + path;
      if pos < |req.url| && req.url[pos] == text[0] {
        MatchChars(text[1..], path, req, pos + 1, params);
        HasTextStep(req.url, pos, text);
      } else if HasText(req.url, pos, text) {
        assert false;
      }
    }
  }

  lemma HasTextStep(url: string, pos: nat, text: string)
    requires text != "" && pos < |url| && url[pos] == text[0]
    ensures HasText(url, pos, text) <==> HasText(url, pos + 1, text[1..])
  {
    if pos + |text| <= |url| {
      assert url[pos..pos + |text|] == [url[pos]] + url[pos + 1..pos + |text|];
      assert text == [text[0]] + text[1..];
    }
  }

  lemma MatchLabel(child: Node, path: seq<Piece>, req: Request, pos: nat, params: Params)
    requires pos < |req.url|
    ensures MatchPath(Label(child) + path, req, pos, params) ==
      match Enter(child, req, pos, params) case None => None case Some(e) => MatchPath(path, req, e.1, e.0)
  {
    match child.param
    case None => MatchChars(child.key, path, req, pos, params);
    case Some(t) => assert ([Par(t)] + path)[1..] == path;
  }

  lemma {:induction false} BestPrefixed(child: Node, routes: seq<Route>, req: Request, pos: nat, params: Params,
                                        found: Found)
    requires pos < |req.url|
    ensures Best(Prefixed(Label(child), routes), req, pos, params, found) ==
      match Enter(child, req, pos, params)
      case None => found
      case Some(e) => Best(routes, req, e.1, e.0, found)
    decreases |routes|
  {
    if routes != [] {
      var all := Prefixed(Label(child), routes);
      assert all[1..] == Prefixed(Label(child), routes[1..]);
      MatchLabel(child, routes[0].0, req, pos, params);
      BestPrefixed(child, routes[1..], req, pos, params, Better(found, Outcome(all[0], req, pos, params)));
    }
  }

  /** At the end of the URL nothing below a node can match. */
  lemma {:induction false} NothingBelow(children: seq<Node>, req: Request, params: Params, found: Found)
    requires KeyedAll(children)
    ensures Best(RoutesIn(children), req, |req.url|, params, found) == found
    decreases |children|
  {
    if children != [] {
      var own := Prefixed(Label(children[0]), Routes(children[0]));
      BestOfBoth(own, RoutesIn(children[1..]), req, |req.url|, params, found);
      NoneMatch(own, req, params, found);
      NothingBelow(children[1..], req, params, found);
    }
  }

  lemma {:induction false} NoneMatch(routes: seq<Route>, req: Request, params: Params, found: Found)
    requires forall i :: 0 <= i < |routes| ==> routes[i].0 != []
    ensures Best(routes, req, |req.url|, params, found) == found
    decreases |routes|
  {
    if routes != [] {
      assert routes[0].0 != [];
      NoneMatch(routes[1..], req, params, found);
    }
  }

  // ---------------------------------------------------------------- lookup is plain matching

  /** No rule, no parameters. */
  function Normal(found: Found): Found {
    if found.rule == 0 then NOTHING else found
  }

  lemma {:induction false} FindIsBest(node: Node, req: Request, pos: nat, params: Params)
    requires pos <= |req.url| && Keyed(node)
    ensures Normal(Find(node, req, pos, params)) == Best(Routes(node), req, pos, params, NOTHING)
    decreases node, 1
  {
    var own: seq<Route> := if node.rule == 0 then [] else [([], node.rule)];
    BestOfBoth(own, RoutesIn(node.children), req, pos, params, NOTHING);
    if pos == |req.url| {
      NothingBelow(node.children, req, params, Best(own, req, pos, params, NOTHING));
    } else {
      assert Best(own, req, pos, params, NOTHING) == NOTHING;
      FindInIsBest(node.children, req, pos, params, NOTHING);
    }
  }

  lemma {:induction false} FindInIsBest(children: seq<Node>, req: Request, pos: nat, params: Params, found: Found)
    requires pos < |req.url| && KeyedAll(children) && Normal(found) == found
    ensures FindIn(children, req, pos, params, found) == Best(RoutesIn(children), req, pos, params, found)
    ensures Normal(FindIn(children, req, pos, params, found)) == FindIn(children, req, pos, params, found)
    decreases children, 0
  {
    if children != [] {
      var child := children[0];
      BestOfBoth(Prefixed(Label(child), Routes(child)), RoutesIn(children[1..]), req, pos, params, found);
      BestPrefixed(child, Routes(child), req, pos, params, found);
      match Enter(child, req, pos, params)
      case None =>
        FindInIsBest(children[1..], req, pos, params, found);
      case Some(e) =>
        FindIsBest(child, req, e.1, e.0);
        BestFrom(Routes(child), req, e.1, e.0, found);
        FindInIsBest(children[1..], req, pos, params, Better(found, Find(child, req, e.1, e.0)));
    }
  }

  // ---------------------------------------------------------------- compression

  /** What a node contributes to its parent's routes. */
  function Labelled(node: Node): seq<Route> {
    Prefixed(Label(node), Routes(node))
  }

  lemma PrefixedTwice(a: seq<Piece>, b: seq<Piece>, routes: seq<Route>)
    ensures Prefixed(a, Prefixed(b, routes)) == Prefixed(a + b, routes)
  {
    forall i | 0 <= i < |routes|
      ensures Prefixed(a, Prefixed(b, routes))[i] == Prefixed(a + b, routes)[i]
    {
      assert a + (b + routes[i].0) == (a + b) + routes[i].0;
    }
  }

  lemma MergeKeeps(node: Node)
    requires IsSimple(node) && |node.children| == 1 && KeyedAll([node]) 
    ensures Labelled(Merge(node)) == Labelled(node)
    ensures KeyedAll([Merge(node)])
  {
    var c := node.children[0];
    assert Keyed(node) && KeyedAll(node.children) && Keyed(c);
    assert node.children == [c];
    assert RoutesIn(node.children[1..]) == [];
    assert Routes(node) == Labelled(c);
    PrefixedTwice(Chars(node.key), Chars(c.key), Routes(c));
    assert Chars(node.key) + Chars(c.key) == Chars(node.key + c.key);
    assert Routes(Merge(node)) == Routes(c);
  }

  lemma {:induction false} OptimizeNodeKeeps(node: Node)
    requires KeyedAll([node])
    ensures Labelled(OptimizeNode(node)) == Labelled(node)
    ensures KeyedAll([OptimizeNode(node)])
    decreases Size(node), 0
  {
    if node.children == [] {
    } else if IsSimple(node) {
      MergeKeeps(node);
      OptimizeNodeKeeps(Merge(node));
    } else {
      OptimizeAllKeeps(node.children);
    }
  }

  lemma {:induction false} OptimizeAllKeeps(nodes: seq<Node>)
    requires KeyedAll(nodes)
    ensures RoutesIn(OptimizeAll(nodes)) == RoutesIn(nodes)
    ensures KeyedAll(OptimizeAll(nodes))
    decreases SizeAll(nodes), 1
  {
    if nodes != [] {
      OptimizeNodeKeeps(nodes[0]);
      OptimizeAllKeeps(nodes[1..]);
      assert OptimizeAll(nodes)[1..] == OptimizeAll(nodes[1..]);
    }
  }

  /** Compression changes no lookup: the same rule, with the same parameters, for every URL. */
  lemma {:induction false} OptimizeKeepsLookup(head: Node, req: Request)
    requires Keyed(head)
    ensures Keyed(Optimize(head))
    ensures Find(Optimize(head), req, 0, NO_PARAMS) == Find(head, req, 0, NO_PARAMS)
  {
    OptimizeAllKeeps(head.children);
    if req.url != "" {
      FindInIsBest(head.children, req, 0, NO_PARAMS, NOTHING);
      FindInIsBest(OptimizeAll(head.children), req, 0, NO_PARAMS, NOTHING);
    }
    FindIsBest(head, req, 0, NO_PARAMS);
    FindIsBest(Optimize(head), req, 0, NO_PARAMS);
  }

  /** No node below the head can be merged any more. */
  predicate Compressed(nodes: seq<Node>) {
    nodes == [] ||
    ((nodes[0].children == [] || !IsSimple(nodes[0])) && Compressed(nodes[0].children) && Compressed(nodes[1..]))
  }

  lemma {:induction false} OptimizeNodeCompresses(node: Node)
    ensures Compressed([OptimizeNode(node)])
    ensures OptimizeNode(node).param == node.param
    decreases Size(node), 0
  {
    if node.children != [] && IsSimple(node) {
      OptimizeNodeCompresses(Merge(node));
    } else if node.children != [] {
      OptimizeAllCompresses(node.children);
      var children := OptimizeAll(node.children);
      assert forall i :: 0 <= i < |children| ==> children[i].param == node.children[i].param;
    }
  }

  lemma {:induction false} OptimizeAllCompresses(nodes: seq<Node>)
    ensures Compressed(OptimizeAll(nodes))
    ensures forall i :: 0 <= i < |nodes| ==> OptimizeAll(nodes)[i].param == nodes[i].param
    decreases SizeAll(nodes), 1
  {
    if nodes != [] {
      OptimizeNodeCompresses(nodes[0]);
      OptimizeAllCompresses(nodes[1..]);
      var all := OptimizeAll(nodes);
      assert all[1..] == OptimizeAll(nodes[1..]);
      assert Compressed([all[0]]);
    }
  }

  /** What is compressed stays as it is. */
  lemma {:induction false} CompressedStays(nodes: seq<Node>)
    requires Compressed(nodes)
    ensures OptimizeAll(nodes) == nodes
    decreases nodes
  {
    if nodes != [] {
      CompressedStays(nodes[0].children);
      CompressedStays(nodes[1..]);
      assert [nodes[0]] + nodes[1..] == nodes;
    }
  }

  lemma OptimizedStays(head: Node)
    ensures Optimize(Optimize(head)) == Optimize(head)
  {
    OptimizeAllCompresses(head.children);
    CompressedStays(OptimizeAll(head.children));
  }

  // ---------------------------------------------------------------- adding a rule

  /** The step that leads into a node of a trie that was not compressed. */
  function Step(node: Node): Piece {
    match node.param case None => Chr(KeyHead(node)) case Some(t) => Par(t)
  }

  predicate OneStep(node: Node) {
    match node.param case None => |node.key| == 1 && node.key[0] != '\0' case Some(_) => node.key == ""
  }

  predicate Apart(children: seq<Node>) {
    && (forall i :: 0 <= i < |children| ==> OneStep(children[i]))
    && (forall i, j :: 0 <= i < j < |children| ==> Step(children[i]) != Step(children[j]))
  }

  /** The tries that `add` makes: every edge is one step, and no two siblings share one. */
  predicate Grown(node: Node) {
    Apart(node.children) && forall i :: 0 <= i < |node.children| ==> Grown(node.children[i])
  }

  function Spot(children: seq<Node>, p: Piece): (k: nat)
    ensures k <= |children|
    ensures k < |children| ==> Step(children[k]) == p
    ensures forall j :: 0 <= j < k ==> Step(children[j]) != p
  {
    if children == [] || Step(children[0]) == p then 0 else Spot(children[1..], p) + 1
  }

  lemma InLabelled(node: Node, p: Piece, rest: seq<Piece>, rule: nat)
    requires OneStep(node)
    ensures ([p] + rest, rule) in Labelled(node) <==> p == Step(node) && (rest, rule) in Routes(node)
  {
    var all := Labelled(node);
    assert Label(node) == [Step(node)];
    if ([p] + rest, rule) in all {
      var i :| 0 <= i < |all| && all[i] == ([p] + rest, rule);
      assert ([p] + rest)[0] == p && ([p] + rest)[1..] == rest;
      assert ([Step(node)] + Routes(node)[i].0)[1..] == Routes(node)[i].0;
    }
    if p == Step(node) && (rest, rule) in Routes(node) {
      var i :| 0 <= i < |Routes(node)| && Routes(node)[i] == (rest, rule);
      assert all[i] == ([p] + rest, rule);
    }
  }

  lemma {:induction false} InRoutesIn(children: seq<Node>, p: Piece, rest: seq<Piece>, rule: nat)
    requires Apart(children)
    ensures ([p] + rest, rule) in RoutesIn(children) <==>
      Spot(children, p) < |children| && (rest, rule) in Routes(children[Spot(children, p)])
  {
    hide OneStep, Step, Routes, Prefixed, Label;
    if children != [] {
      var more := children[1..];
      InLabelled(children[0], p, rest, rule);
      InRoutesIn(more, p, rest, rule);
      assert ([p] + rest, rule) in RoutesIn(children) <==>
        ([p] + rest, rule) in Labelled(children[0]) || ([p] + rest, rule) in RoutesIn(more);
    }
  }

  lemma {:induction false} NoEmptyRoute(children: seq<Node>, rule: nat)
    requires Apart(children)
    ensures ([], rule) !in RoutesIn(children)
  {
    if children != [] {
      var all := Labelled(children[0]);
      assert |Label(children[0])| == 1;
      assert forall i :: 0 <= i < |all| ==> |all[i].0| > 0;
      NoEmptyRoute(children[1..], rule);
    }
  }

  /** The routes of a trie of single steps: its own rule, and those through the one child that fits. */
  predicate HasRoute(node: Node, path: seq<Piece>, rule: nat) {
    if path == [] then node.rule != 0 && rule == node.rule
    else
      var k := Spot(node.children, path[0]);
      k < |node.children| && (path[1..], rule) in Routes(node.children[k])
  }

  lemma RouteIn(node: Node, path: seq<Piece>, rule: nat)
    requires Grown(node)
    ensures (path, rule) in Routes(node) <==> HasRoute(node, path, rule)
  {
    if path == [] {
      NoEmptyRoute(node.children, rule);
    } else {
      assert path == [path[0]] + path[1..];
      InRoutesIn(node.children, path[0], path[1..], rule);
    }
  }

  /** No step is the terminating zero. */
  predicate Plain(url: string) {
    forall i :: 0 <= i < |url| ==> url[i] != '\0'
  }

  lemma ChildForIsSpot(children: seq<Node>, p: Piece)
    requires Apart(children) && p != Chr('\0')
    ensures ChildFor(children, p, 0) == Spot(children, p)
  {
    forall j | 0 <= j < |children| ensures Fits(children[j], p) <==> Step(children[j]) == p {
      assert OneStep(children[j]);
    }
  }

  /** The trie after one child was replaced or put at the end. */
  function WithChild(node: Node, k: nat, child: Node): Node
    requires k <= |node.children|
  {
    node.(children := if k < |node.children| then node.children[k := child] else node.children + [child])
  }

  /** Where a step is found then. */
  function SpotAfter(node: Node, p: Piece, s: Piece): nat {
    var k := Spot(node.children, p);
    var n := |node.children|;
    if s == p then k else if Spot(node.children, s) < n || k < n then Spot(node.children, s) else n + 1
  }

  lemma WithChildGrown(node: Node, p: Piece, child: Node)
    requires Grown(node) && Grown(child) && OneStep(child) && Step(child) == p
    ensures Grown(WithChild(node, Spot(node.children, p), child))
    ensures forall s :: Spot(WithChild(node, Spot(node.children, p), child).children, s) ==
                        SpotAfter(node, p, s)
  {
    hide OneStep, Step, Spot;
    var k := Spot(node.children, p);
    var after := WithChild(node, k, child);
    forall s ensures Spot(after.children, s) == SpotAfter(node, p, s) {
      SpotWithChild(node, p, child, s);
    }
    forall i | 0 <= i < |after.children| ensures OneStep(after.children[i]) && Grown(after.children[i]) {
      assert i != k ==> after.children[i] == node.children[i];
    }
    forall i, j | 0 <= i < j < |after.children| ensures Step(after.children[i]) != Step(after.children[j]) {
      assert i != k ==> after.children[i] == node.children[i];
      assert j != k ==> after.children[j] == node.children[j];
      assert k < |node.children| ==> Step(node.children[k]) == p;
    }
  }

  lemma SpotWithChild(node: Node, p: Piece, child: Node, s: Piece)
    requires Step(child) == p
    ensures Spot(WithChild(node, Spot(node.children, p), child).children, s) == SpotAfter(node, p, s)
  {
    hide Step;
    var k := Spot(node.children, p);
    var after := WithChild(node, k, child).children;
    SpotIs(after, s, SpotAfter(node, p, s));
  }

  /** The first place of a step is the one with the step, and none before it. */
  lemma {:induction false} SpotIs(children: seq<Node>, p: Piece, k: nat)
    requires k <= |children| && (k < |children| ==> Step(children[k]) == p)
    requires forall j :: 0 <= j < k ==> Step(children[j]) != p
    ensures Spot(children, p) == k
  {
    hide Step;
    if k > 0 {
      SpotIs(children[1..], p, k - 1);
    }
  }

  /** The trie has exactly one route more, or none for the rule zero. */
  ghost predicate GainsRoute(before: Node, after: Node, path: seq<Piece>, rule: nat) {
    forall q: Route :: q in Routes(after) <==> q in Routes(before) || (rule != 0 && q == (path, rule))
  }

  ghost predicate Free(node: Node, path: seq<Piece>) {
    forall r: nat :: (path, r) !in Routes(node)
  }

  lemma GainsThroughChild(node: Node, p: Piece, path: seq<Piece>, rule: nat, old_: Node, child: Node)
    requires Grown(node) && Grown(child) && OneStep(child) && Step(child) == p
    requires Spot(node.children, p) < |node.children| ==> old_ == node.children[Spot(node.children, p)]
    requires Spot(node.children, p) == |node.children| ==> Routes(old_) == []
    requires GainsRoute(old_, child, path, rule)
    ensures GainsRoute(node, WithChild(node, Spot(node.children, p), child), [p] + path, rule)
  {
    hide Grown, OneStep, Step, Spot, Routes, WithChild;
    var after := WithChild(node, Spot(node.children, p), child);
    WithChildGrown(node, p, child);
    forall q: Route ensures q in Routes(after) <==> q in Routes(node) || (rule != 0 && q == ([p] + path, rule)) {
      RouteIn(node, q.0, q.1);
      RouteIn(after, q.0, q.1);
      if q.0 == [] {
        WithChildRule(node, p, child);
      } else if q.0[0] == p {
        ThroughChild(node, after, p, child, q.0, q.1);
        assert (q.0[1..], q.1) in Routes(child) <==>
          (q.0[1..], q.1) in Routes(old_) || (rule != 0 && (q.0[1..], q.1) == (path, rule));
        assert q.0 == [p] + path <==> q.0[1..] == path by {
          assert q.0 == [p] + q.0[1..] && ([p] + path)[1..] == path;
        }
      } else {
        PastChild(node, p, child, q.0, q.1);
      }
    }
  }

  lemma WithChildRule(node: Node, p: Piece, child: Node)
    ensures WithChild(node, Spot(node.children, p), child).rule == node.rule
  {
  }

  /** A pattern that begins with the step leads through the child. */
  lemma ThroughChild(node: Node, after: Node, p: Piece, child: Node, path: seq<Piece>, rule: nat)
    requires after == WithChild(node, Spot(node.children, p), child) && Step(child) == p
    requires path != [] && path[0] == p
    ensures HasRoute(after, path, rule) <==> (path[1..], rule) in Routes(child)
    ensures HasRoute(node, path, rule) <==>
      Spot(node.children, p) < |node.children| && (path[1..], rule) in Routes(node.children[Spot(node.children, p)])
  {
    hide Routes, Step;
    SpotWithChild(node, p, child, p);
  }

  /** Any other pattern leads where it led. */
  lemma PastChild(node: Node, p: Piece, child: Node, path: seq<Piece>, rule: nat)
    requires path != [] && path[0] != p && Step(child) == p
    ensures HasRoute(WithChild(node, Spot(node.children, p), child), path, rule) <==> HasRoute(node, path, rule)
  {
    hide Routes, Spot;
    SpotWithChild(node, p, child, path[0]);
    SpotsDiffer(node.children, p, path[0]);
  }

  lemma SpotsDiffer(children: seq<Node>, p: Piece, s: Piece)
    ensures p != s && Spot(children, p) == Spot(children, s) ==> Spot(children, p) == |children|
  {
  }

  /** The steps of a pattern with no zero are its tags and its characters. */
  lemma {:induction false} PlainPieces(url: string, i: nat)
    requires i <= |url| && Plain(url) && Pieces(url, i).Some?
    ensures Chr('\0') !in Pieces(url, i).value
    decreases |url| - i
  {
    if i < |url| {
      if url[i] == '<' {
        PlainPieces(url, i + TagFrom(url, i, 0).value.1);
      } else {
        PlainPieces(url, i + 1);
      }
    }
  }

  /** `add` refuses a pattern exactly when the trie has a rule for it, and else adds that route only. */
  lemma {:induction false} AddGains(node: Node, url: string, i: nat, rule: nat, prefix: nat, blueprint: nat)
    requires Grown(node) && i <= |url| && Plain(url) && Pieces(url, i).Some?
    ensures Add(node, url, i, rule, prefix, blueprint).Done? <==> Free(node, Pieces(url, i).value)
    ensures Add(node, url, i, rule, prefix, blueprint).Done? ==>
      var after := Add(node, url, i, rule, prefix, blueprint).node;
      && Grown(after) && after.key == node.key && after.param == node.param
      && GainsRoute(node, after, Pieces(url, i).value, rule)
    decreases |url| - i
  {
    var path := Pieces(url, i).value;
    if i == |url| {
      AddHere(node, rule);
    } else {
      var p := path[0];
      var next := if url[i] == '<' then i + TagFrom(url, i, 0).value.1 else i + 1;
      PlainPieces(url, i);
      assert path == [p] + Pieces(url, next).value;
      var k := Spot(node.children, p);
      ChildForIsSpot(node.children, p);
      var child := if k < |node.children| then node.children[k] else FreshNode(p, BlueprintAt(i, prefix, blueprint));
      AddGains(child, url, next, rule, prefix, blueprint);
      FreeThroughChild(node, p, path[1..], child);
      var added := Add(child, url, next, rule, prefix, blueprint);
      if added.Done? {
        WithChildGrown(node, p, added.node);
        GainsThroughChild(node, p, path[1..], rule, child, added.node);
      }
    }
  }

  lemma AddHere(node: Node, rule: nat)
    requires Grown(node)
    ensures Free(node, []) <==> node.rule == 0
    ensures node.rule == 0 ==> Grown(node.(rule := rule)) && GainsRoute(node, node.(rule := rule), [], rule)
  {
    RouteIn(node, [], node.rule);
    forall r: nat ensures ([], r) in Routes(node) <==> node.rule != 0 && r == node.rule {
      RouteIn(node, [], r);
    }
    if node.rule == 0 {
      var after := node.(rule := rule);
      assert Routes(after) == (if rule == 0 then [] else [([], rule)]) + RoutesIn(node.children);
      assert Routes(node) == RoutesIn(node.children);
    }
  }

  lemma FreeThroughChild(node: Node, p: Piece, path: seq<Piece>, child: Node)
    requires Grown(node)
    requires Spot(node.children, p) < |node.children| ==> child == node.children[Spot(node.children, p)]
    requires Spot(node.children, p) == |node.children| ==> Routes(child) == []
    ensures Free(node, [p] + path) <==> Free(child, path)
  {
    forall r: nat ensures ([p] + path, r) in Routes(node) <==> (path, r) in Routes(child) {
      RouteIn(node, [p] + path, r);
      assert ([p] + path)[1..] == path;
    }
  }
}
