/**
  The trie of `3rdparty/crow/routing.h` as it is: nodes that `add` and `optimize` change in place,
  and a lookup that pushes onto one shared list of parameters and pops again.
 */
module RouterTrie {
  import opened Wrappers
  import opened RouterSpec
  import RouterProof
  import opened RouterTheorem

  /** `routing_params`. */
  class Parameters {
    var ints: seq<int>
    var uints: seq<int>
    var doubles: seq<real>
    var strings: seq<string>

    function Current(): Params
      reads this
    {
      Params(ints, uints, doubles, strings)
    }

    constructor ()
      ensures Current() == NO_PARAMS
    {
      ints, uints, doubles, strings := [], [], [], [];
    }

    method Push(v: Value)
      modifies this
      ensures Current() == old(Current()).Push(v)
    {
      match v
      case IntValue(i) => ints := ints + [i];
      case UintValue(u) => uints := uints + [u];
      case DoubleValue(d) => doubles := doubles + [d];
      case StringValue(s) => strings := strings + [s];
    }

    /** Takes back what was pushed onto `before`. */
    method Pop(v: Value, ghost before: Params)
      requires Current() == before.Push(v)
      modifies this
      ensures Current() == before
    {
      match v
      case IntValue(_) => ints := ints[..|ints| - 1];
      case UintValue(_) => uints := uints[..|uints| - 1];
      case DoubleValue(_) => doubles := doubles[..|doubles| - 1];
      case StringValue(_) => strings := strings[..|strings| - 1];
    }
  }

  class TrieNode {
    var rule: nat
    var blueprint: nat
    var key: string
    var param: Option<ParamType>
    var children: seq<TrieNode>
    /** The tree below, as a value, and the nodes it is made of. */
    ghost var Model: Node
    ghost var Repr: set<TrieNode>

    ghost predicate Valid()
      reads this, Repr
      decreases Model
    {
      && this in Repr
      && Model == Node(rule, blueprint, key, param, Model.children)
      && |Model.children| == |children|
      && (forall i :: 0 <= i < |children| ==>
            && children[i] in Repr && children[i].Repr <= Repr && this !in children[i].Repr
            && children[i].Model == Model.children[i] && children[i].Valid())
      && (forall i, j :: 0 <= i < j < |children| ==> children[i].Repr !! children[j].Repr)
    }

    constructor (p: Piece, at: nat)
      ensures Valid() && fresh(Repr) && Model == FreshNode(p, at)
    {
      rule, children := 0, [];
      match p {
        case Chr(c) => key, param, blueprint := [c], None, at;
        case Par(t) => key, param, blueprint := "", Some(t), INVALID_BP_ID;
      }
      Model, Repr := FreshNode(p, at), {this};
    }

    constructor Head()
      ensures Valid() && fresh(Repr) && Model == EMPTY_TRIE
    {
      rule, blueprint, key, param, children := 0, INVALID_BP_ID, "", None, [];
      Model, Repr := EMPTY_TRIE, {this};
    }

    // -------------------------------------------------------------- lookup

    /** `find`: the parameters pushed on the way down are popped again on the way up. */
    method Find(req: Request, pos: nat, params: Parameters) returns (found: Found)
      requires Valid() && pos <= |req.url|
      modifies params
      ensures params.Current() == old(params.Current())
      ensures found == RouterSpec.Find(Model, req, pos, old(params.Current()))
      decreases Model
    {
      ghost var before := params.Current();
      if pos == |req.url| {
        found := Found(rule, params.Current());
      } else {
        found := NOTHING;
        for i := 0 to |children|
          invariant params.Current() == before
          invariant FindIn(Model.children[i..], req, pos, before, found) ==
                    FindIn(Model.children, req, pos, before, NOTHING)
        {
          var child := children[i];
          ghost var rest := Model.children[i..];
          assert rest[0] == child.Model && rest[1..] == Model.children[i + 1..];
          if child.param.Some? {
            var v := Convert(child.param.value, req, pos);
            if v.Some? {
              params.Push(v.value.0);
              var ret := child.Find(req, v.value.1, params);
              found := UpdateFound(found, ret);
              params.Pop(v.value.0, before);
            }
          } else if HasText(req.url, pos, child.key) {
            var ret := child.Find(req, pos + |child.key|, params);
            found := UpdateFound(found, ret);
          }
        }
      }
    }

    // -------------------------------------------------------------- compression

    method IsSimpleNode() returns (simple: bool)
      requires Valid()
      ensures simple == IsSimple(Model)
    {
      simple := rule == 0 && blueprint == INVALID_BP_ID && |children| < 2 && param == None;
      for i := 0 to |children|
        invariant simple == (rule == 0 && blueprint == INVALID_BP_ID && |children| < 2 && param == None
                             && forall j :: 0 <= j < i ==> Model.children[j].param == None)
      {
        simple := simple && children[i].param == None;
      }
    }

    method OptimizeNode()
      requires Valid()
      modifies Repr
      ensures Valid() && Repr == old(Repr) && Model == RouterSpec.OptimizeNode(old(Model))
      decreases Size(Model), 0
    {
      if |children| != 0 {
        var simple := IsSimpleNode();
        if simple {
          var child := children[0];
          key := key + child.key;
          rule := child.rule;
          blueprint := child.blueprint;
          children := child.children;
          Model := Merge(Model);
          OptimizeNode();
        } else {
          OptimizeChildren();
        }
      }
    }

    /** Also `optimize`, on the head. */
    method OptimizeChildren()
      requires Valid()
      modifies Repr
      ensures Valid() && Repr == old(Repr) && Model == Optimize(old(Model))
      decreases SizeAll(Model.children), 1
    {
      hide RouterSpec.OptimizeNode, RouterSpec.OptimizeAll, Size, IsSimple;
      ghost var nodes := Model.children;
      for i := 0 to |children|
        invariant children == old(children) && Repr == old(Repr) && this in Repr && Model == old(Model)
        invariant Model == Node(rule, blueprint, key, param, nodes) && |nodes| == |children|
        invariant forall j :: 0 <= j < |children| ==>
          && children[j] in Repr && children[j].Repr <= Repr && this !in children[j].Repr && children[j].Valid()
          && children[j].Model == (if j < i then RouterSpec.OptimizeNode(nodes[j]) else nodes[j])
        invariant forall j :: 0 <= j < |children| ==> children[j].Repr == old(children[j].Repr)
      {
        ChildIsSmaller(nodes, i);
        children[i].OptimizeNode();
      }
      OptimizeEach(nodes);
      Model := Optimize(Model);
    }

    // -------------------------------------------------------------- adding a rule

    /** The first child that fits, or their number. */
    method ChildAt(p: Piece) returns (k: nat)
      requires Valid()
      ensures k == ChildFor(Model.children, p, 0)
    {
      k := 0;
      while k < |children| && !(match p case Chr(c) => (if children[k].key == "" then '\0' else children[k].key[0]) == c
                                case Par(t) => children[k].param == Some(t))
        invariant k <= |children|
        invariant ChildFor(Model.children, p, k) == ChildFor(Model.children, p, 0)
      {
        k := k + 1;
      }
    }

    /** `add_child_node`, with the fields the caller then sets. */
    method AddChildNode(p: Piece, at: nat)
      requires Valid()
      modifies this
      ensures Valid() && fresh(Repr - old(Repr))
      ensures Model == old(Model).(children := old(Model).children + [FreshNode(p, at)])
    {
      hide FreshNode;
      var child := new TrieNode(p, at);
      children := children + [child];
      Model := Model.(children := Model.children + [child.Model]);
      Repr := Repr + child.Repr;
    }

    /** `add` from position `i` of the pattern on; on failure the trie is as it was. */
    method Add(url: string, i: nat, index: nat, prefix: nat, at: nat) returns (done: bool)
      requires Valid() && i <= |url| && Pieces(url, i).Some?
      modifies Repr
      ensures Valid() && fresh(Repr - old(Repr))
      ensures done == RouterSpec.Add(old(Model), url, i, index, prefix, at).Done?
      ensures Model == if done then RouterSpec.Add(old(Model), url, i, index, prefix, at).node else old(Model)
      decreases |url| - i, 0
    {
      hide RouterSpec.Add, ChildFor, FreshNode, BlueprintAt, TagFrom;
      if i == |url| {
        AddHere(Model, url, index, prefix, at);
        done := rule == 0;
        if done {
          rule := index;
          Model := Model.(rule := index);
        }
      } else {
        var p, next;
        if url[i] == '<' {
          var tag := TagFrom(url, i, 0);
          p, next := Par(tag.value.0), i + tag.value.1;
        } else {
          p, next := Chr(url[i]), i + 1;
        }
        var k := ChildAt(p);
        if k == |children| {
          var own := BlueprintFor(i, prefix, at);
          AddChildNode(p, own);
        }
        AddStep(old(Model), Model, p, next, url, i, index, prefix, at);
        done := AddBelow(k, url, next, index, prefix, at);
      }
    }

    /** The rest of the pattern below child `k`. */
    method AddBelow(k: nat, url: string, i: nat, index: nat, prefix: nat, at: nat) returns (done: bool)
      requires Valid() && k < |children| && i <= |url| && Pieces(url, i).Some?
      modifies Repr
      ensures Valid() && fresh(Repr - old(Repr))
      ensures var added := RouterSpec.Add(old(Model).children[k], url, i, index, prefix, at);
        && done == added.Done?
        && Model == if done then old(Model).(children := old(Model).children[k := added.node]) else old(Model)
      decreases |url| - i, 1
    {
      hide RouterSpec.Add, Pieces;
      ghost var nodes := Model.children;
      var child := children[k];
      done := child.Add(url, i, index, prefix, at);
      Model := Model.(children := nodes[k := child.Model]);
      Repr := Repr + child.Repr;
    }
  }

  /** `Trie`: rules are added first, then it may be compressed. */
  class Trie {
    const head: TrieNode
    /** The rules that were added, and whether the trie was compressed since. */
    ghost var rules: seq<Rule>
    ghost var compressed: bool

    ghost predicate Valid()
      reads this, head, head.Repr
    {
      && head.Valid()
      && (forall r :: r in rules ==> WellFormed(r))
      && Built(rules).Done?
      && head.Model == if compressed then RouterSpec.Optimize(Built(rules).node) else Built(rules).node
    }

    constructor ()
      ensures Valid() && rules == [] && !compressed && fresh(head) && fresh(head.Repr)
    {
      head := new TrieNode.Head();
      rules, compressed := [], false;
    }

    /** The exception that a handler already exists is the result `false`. */
    method Add(rule: Rule) returns (done: bool)
      requires Valid() && !compressed && WellFormed(rule)
      modifies this, head.Repr
      ensures Valid() && !compressed && fresh(head.Repr - old(head.Repr))
      ensures done <==> forall r :: r in old(rules) && r.index != 0 ==> Path(r) != Path(rule)
      ensures rules == if done then old(rules) + [rule] else old(rules)
    {
      BuiltAfterOneMore(rules, rule);
      done := head.Add(rule.url, 0, rule.index, rule.prefix, rule.blueprint);
      if done {
        rules := rules + [rule];
      }
    }

    method Optimize()
      requires Valid()
      modifies this, head.Repr
      ensures Valid() && compressed && rules == old(rules) && head.Repr == old(head.Repr)
    {
      RouterProof.OptimizedStays(Built(rules).node);
      head.OptimizeChildren();
      compressed := true;
    }

    /** On every run: the least index among the added rules that match, with its parameters, or nothing. */
    method Find(req: Request) returns (found: Found)
      requires Valid()
      ensures RightFor(rules, req, found)
    {
      BuiltHasTheRules(rules);
      LookupIsPatternMatching(rules, req);
      var params := new Parameters();
      found := head.Find(req, 0, params);
    }
  }

  /** `update_found`. */
  method UpdateFound(found: Found, ret: Found) returns (best: Found)
    ensures best == Better(found, ret)
  {
    best := found;
    if ret.rule != 0 && (found.rule == 0 || found.rule > ret.rule) {
      best := ret;
    }
  }

  /** The blueprint of a node made for position `i`. */
  method BlueprintFor(i: nat, bpPrefixLength: nat, blueprintIndex: nat) returns (own: nat)
    ensures own == BlueprintAt(i, bpPrefixLength, blueprintIndex)
  {
    var hasBlueprint := bpPrefixLength != 0 && blueprintIndex != INVALID_BP_ID;
    own := INVALID_BP_ID;
    if hasBlueprint && i == bpPrefixLength {
      own := blueprintIndex;
    }
  }

  lemma BuiltAfterOneMore(rules: seq<Rule>, rule: Rule)
    requires forall r :: r in rules ==> WellFormed(r)
    requires WellFormed(rule) && Built(rules).Done?
    ensures forall r :: r in rules + [rule] ==> WellFormed(r)
    ensures Built(rules + [rule]) ==
            RouterSpec.Add(Built(rules).node, rule.url, 0, rule.index, rule.prefix, rule.blueprint)
    ensures Built(rules + [rule]).Done? <==> forall r :: r in rules && r.index != 0 ==> Path(r) != Path(rule)
  {
    var all := rules + [rule];
    assert all[..|rules|] == rules;
    BuiltHasTheRules(rules);
    BuiltHasTheRules(all);
    if Distinct(all) {
      forall r | r in rules && r.index != 0 ensures Path(r) != Path(rule) {
        var i :| 0 <= i < |rules| && rules[i] == r;
        assert Path(all[i]) != Path(all[|rules|]);
      }
    }
    if forall r :: r in rules && r.index != 0 ==> Path(r) != Path(rule) {
      forall i, j | 0 <= i < j < |all| && all[i].index != 0 ensures Path(all[i]) != Path(all[j]) {
        assert all[i] == rules[i];
        assert j < |rules| ==> all[j] == rules[j];
      }
    }
  }

  lemma AddHere(node: Node, url: string, index: nat, prefix: nat, at: nat)
    ensures RouterSpec.Add(node, url, |url|, index, prefix, at) ==
            if node.rule != 0 then AlreadyExists else Done(node.(rule := index))
  {
  }

  /** A step of `add`: first make sure that there is a child, then go on below it. */
  lemma AddStep(before: Node, ready: Node, p: Piece, next: nat, url: string, i: nat, index: nat, prefix: nat, at: nat)
    requires i < |url| && Pieces(url, i).Some?
    requires if url[i] == '<' then p == Par(TagFrom(url, i, 0).value.0) && next == i + TagFrom(url, i, 0).value.1
             else p == Chr(url[i]) && next == i + 1
    requires var k := ChildFor(before.children, p, 0);
      ready == if k < |before.children| then before
               else before.(children := before.children + [FreshNode(p, BlueprintAt(i, prefix, at))])
    ensures next <= |url| && Pieces(url, next).Some?
    ensures var k := ChildFor(before.children, p, 0);
      && k < |ready.children|
      && RouterSpec.Add(before, url, i, index, prefix, at) ==
         (match RouterSpec.Add(ready.children[k], url, next, index, prefix, at)
          case AlreadyExists => AlreadyExists
          case Done(c) => Done(ready.(children := ready.children[k := c])))
      && (RouterSpec.Add(before, url, i, index, prefix, at).Done? || ready == before)
  {
    hide ChildFor, TagFrom, RouterSpec.Add, FreshNode;
    NextPiece(url, i);
    AddUnfolds(before, p, next, url, i, index, prefix, at);
    if ChildFor(before.children, p, 0) == |before.children| {
      FreshTakes(p, BlueprintAt(i, prefix, at), url, next, index, prefix, at);
    }
  }

  lemma NextPiece(url: string, i: nat)
    requires i < |url| && Pieces(url, i).Some?
    ensures url[i] == '<' ==> TagFrom(url, i, 0).Some? && Pieces(url, i + TagFrom(url, i, 0).value.1).Some?
    ensures url[i] != '<' ==> Pieces(url, i + 1).Some?
  {
  }

  lemma AddUnfolds(node: Node, p: Piece, next: nat, url: string, i: nat, index: nat, prefix: nat, at: nat)
    requires i < |url| && Pieces(url, i).Some? && next <= |url| && Pieces(url, next).Some?
    requires if url[i] == '<' then p == Par(TagFrom(url, i, 0).value.0) && next == i + TagFrom(url, i, 0).value.1
             else p == Chr(url[i]) && next == i + 1
    ensures var k := ChildFor(node.children, p, 0);
      RouterSpec.Add(node, url, i, index, prefix, at) ==
      (match RouterSpec.Add(if k < |node.children| then node.children[k] else FreshNode(p, BlueprintAt(i, prefix, at)),
                            url, next, index, prefix, at)
       case AlreadyExists => AlreadyExists
       case Done(c) =>
         Done(node.(children := if k < |node.children| then node.children[k := c] else node.children + [c])))
  {
    hide ChildFor, TagFrom, FreshNode;
  }

  lemma {:induction false} ChildIsSmaller(nodes: seq<Node>, i: nat)
    requires i < |nodes|
    ensures Size(nodes[i]) <= SizeAll(nodes)
  {
    if i > 0 {
      ChildIsSmaller(nodes[1..], i - 1);
    }
  }

  lemma {:induction false} OptimizeEach(nodes: seq<Node>)
    ensures forall i :: 0 <= i < |nodes| ==> OptimizeAll(nodes)[i] == RouterSpec.OptimizeNode(nodes[i])
  {
    if nodes != [] {
      OptimizeEach(nodes[1..]);
    }
  }

  /** A new node takes every pattern. */
  lemma {:induction false} FreshTakes(p: Piece, here: nat, url: string, i: nat, index: nat, prefix: nat, at: nat)
    requires i <= |url| && Pieces(url, i).Some?
    ensures RouterSpec.Add(FreshNode(p, here), url, i, index, prefix, at).Done?
    decreases |url| - i
  {
    if i < |url| {
      if url[i] == '<' {
        var tag := TagFrom(url, i, 0).value;
        FreshTakes(Par(tag.0), BlueprintAt(i, prefix, at), url, i + tag.1, index, prefix, at);
      } else {
        FreshTakes(Chr(url[i]), BlueprintAt(i, prefix, at), url, i + 1, index, prefix, at);
      }
    }
  }
}
