/**
  Compiling a template of `3rdparty/crow/mustache.h` is reading its tree: it succeeds exactly on the
  tag lists of trees, and the actions are the tree laid out flat.
 */
module MustacheProof {
  import opened Wrappers
  import opened MustacheSpec

  /** A tree read from the front of a tag list, up to a closing tag that is not its own; or no tree at all. */
  datatype Reading = Read(nodes: seq<Node>, rest: seq<Tag>) | NoTree

  /** Recursive descent over the tags, with no positions at all. */
  function ReadNodes(tags: seq<Tag>): (r: Reading)
    ensures r.Read? ==> |r.rest| <= |tags| && (r.rest == [] || r.rest[0].kind == CLOSE_BLOCK)
    decreases |tags|
  {
    if tags == [] || tags[0].kind == CLOSE_BLOCK then Read([], tags)
    else if Opens(tags[0].kind) then
      var body := ReadNodes(tags[1..]);
      if body.NoTree? || body.rest == [] || body.rest[0].name != tags[0].name then NoTree
      else
        var more := ReadNodes(body.rest[1..]);
        if more.NoTree? then NoTree
        else Read([Block(tags[0], body.nodes, body.rest[0])] + more.nodes, more.rest)
    else
      var more := ReadNodes(tags[1..]);
      if more.NoTree? then NoTree else Read([Leaf(tags[0])] + more.nodes, more.rest)
  }

  /** The tree that is read has the tags that were read. */
  lemma {:induction false} ReadIsProper(tags: seq<Tag>)
    requires ReadNodes(tags).Read?
    ensures ProperAll(ReadNodes(tags).nodes) && TagsAll(ReadNodes(tags).nodes) + ReadNodes(tags).rest == tags
    decreases |tags|
  {
    if tags != [] && tags[0].kind != CLOSE_BLOCK {
      var read := ReadNodes(tags);
      if Opens(tags[0].kind) {
        var body := ReadNodes(tags[1..]);
        var more := ReadNodes(body.rest[1..]);
        assert read == Read([Block(tags[0], body.nodes, body.rest[0])] + more.nodes, more.rest);
        ReadIsProper(tags[1..]);
        ReadIsProper(body.rest[1..]);
        TreeInFront(Block(tags[0], body.nodes, body.rest[0]), more.nodes);
        Reassemble(tags, TagsAll(body.nodes), body.rest, TagsAll(more.nodes), more.rest);
      } else {
        var more := ReadNodes(tags[1..]);
        assert read == Read([Leaf(tags[0])] + more.nodes, more.rest);
        ReadIsProper(tags[1..]);
        TreeInFront(Leaf(tags[0]), more.nodes);
        Associates([tags[0]], TagsAll(more.nodes), more.rest);
      }
    }
  }

  lemma TreeInFront(node: Node, nodes: seq<Node>)
    ensures TagsAll([node] + nodes) == Tags(node) + TagsAll(nodes)
    ensures ProperAll([node] + nodes) <==> Proper(node) && ProperAll(nodes)
  {
    assert ([node] + nodes)[1..] == nodes;
  }

  lemma Reassemble(tags: seq<Tag>, body: seq<Tag>, close: seq<Tag>, more: seq<Tag>, rest: seq<Tag>)
    requires tags != [] && close != [] && body + close == tags[1..] && more + rest == close[1..]
    ensures [tags[0]] + body + [close[0]] + more + rest == tags
  {
    assert [close[0]] + (more + rest) == close;
    assert [tags[0]] + body + [close[0]] + more + rest == [tags[0]] + (body + ([close[0]] + (more + rest)));
  }

  lemma Associates<T>(a: seq<T>, b: seq<T>, c: seq<T>)
    ensures (a + b) + c == a + (b + c)
  {
  }

  lemma BlockAssociates<T>(open: T, body: seq<T>, close: T, more: seq<T>, rest: seq<T>)
    ensures ([open] + body + [close]) + more + rest == [open] + (body + ([close] + (more + rest)))
  {
  }

  // ---------------------------------------------------------------- compiling a tree

  lemma {:induction false} CompileBoth(c: Compiling, a: seq<Tag>, b: seq<Tag>)
    requires c.Valid()
    ensures CompileTags(c, a + b) ==
            match CompileTags(c, a) case None => None case Some(next) => CompileTags(next, b)
    decreases |a|
  {
    if a == [] {
      assert a + b == b;
    } else {
      assert (a + b)[1..] == a[1..] + b;
      if CompileTag(c, a[0]).Some? {
        CompileBoth(CompileTag(c, a[0]).value, a[1..], b);
      }
    }
  }

  function Extended(c: Compiling, actions: seq<Action>): (r: Compiling)
    requires c.Valid()
    ensures r.Valid()
  {
    Compiling(c.actions + actions, c.blocks)
  }

  /** Whatever is open around it, a proper tree adds its flat actions and leaves the same blocks open. */
  lemma {:induction false} CompileTree(c: Compiling, nodes: seq<Node>)
    requires c.Valid() && ProperAll(nodes)
    ensures CompileTags(c, TagsAll(nodes)) == Some(Extended(c, FlatAll(nodes, |c.actions|)))
    decreases nodes
  {
    if nodes == [] {
      assert c.actions + [] == c.actions;
    } else {
      var n := |c.actions|;
      var head := Flat(nodes[0], n);
      CompileNode(c, nodes[0]);
      CompileBoth(c, Tags(nodes[0]), TagsAll(nodes[1..]));
      CompileTree(Extended(c, head), nodes[1..]);
      Associates(c.actions, head, FlatAll(nodes[1..], n + Size(nodes[0])));
    }
  }

  lemma {:induction false} CompileNode(c: Compiling, node: Node)
    requires c.Valid() && Proper(node)
    ensures CompileTags(c, Tags(node)) == Some(Extended(c, Flat(node, |c.actions|)))
    decreases node
  {
    match node {
      case Leaf(tag) =>
        CompileOne(c, tag);
      case Block(open, body, close) =>
        var n := |c.actions|;
        CompileOne(c, open);
        var inside := CompileTag(c, open).value;
        CompileTree(inside, body);
        var filled := Extended(inside, FlatAll(body, n + 1));
        CompileOne(filled, close);
        CompileBoth(c, [open], TagsAll(body));
        CompileBoth(c, [open] + TagsAll(body), [close]);
        CloseBlock(c, open, FlatAll(body, n + 1));
    }
  }

  lemma CompileOne(c: Compiling, tag: Tag)
    requires c.Valid()
    ensures CompileTags(c, [tag]) == CompileTag(c, tag)
  {
    assert [tag][1..] == [];
    if CompileTag(c, tag).Some? {
      assert CompileTags(CompileTag(c, tag).value, []) == CompileTag(c, tag);
    }
  }

  /** The closing tag sets the partner of the opening one, which is still the innermost. */
  lemma CloseBlock(c: Compiling, open: Tag, body: seq<Action>)
    requires c.Valid() && Opens(open.kind)
    ensures CompileTag(c, open).Some?
    ensures CompileTag(Extended(CompileTag(c, open).value, body), Tag(CLOSE_BLOCK, open.name)) ==
      Some(Extended(c, [Action(open.kind, open.name, |c.actions| + 1 + |body|, true)] + body
                       + [Action(CLOSE_BLOCK, open.name, |c.actions|, false)]))
  {
    var n := |c.actions|;
    var opening := Action(open.kind, open.name, 0, false);
    var all := c.actions + [opening] + body;
    var closed := Action(open.kind, open.name, n + 1 + |body|, true);
    assert all[n] == opening;
    assert all[n := closed] == c.actions + ([closed] + body);
    assert (c.blocks + [n])[..|c.blocks|] == c.blocks;
    var last := [Action(CLOSE_BLOCK, open.name, n, false)];
    assert c.actions + ([closed] + body) + last == c.actions + ([closed] + body + last);
  }

  // ---------------------------------------------------------------- exactly the trees

  predicate Complete(c: Option<Compiling>)
    requires c.Some? ==> c.value.Valid()
  {
    c.Some? && c.value.blocks == []
  }

  /** A block that is open has no partner yet, and no other has none. */
  predicate Pairing(c: Compiling)
    requires c.Valid()
  {
    && (forall k :: 0 <= k < |c.actions| ==> (c.actions[k].MissingEndPair() <==> k in c.blocks))
    && (forall i, j :: 0 <= i < j < |c.blocks| ==> c.blocks[i] < c.blocks[j])
  }

  lemma CompileTagPairs(c: Compiling, tag: Tag)
    requires c.Valid() && Pairing(c) && CompileTag(c, tag).Some?
    ensures Pairing(CompileTag(c, tag).value)
  {
    var next := CompileTag(c, tag).value;
    var n := |c.actions|;
    if tag.kind == CLOSE_BLOCK {
      var m := c.blocks[|c.blocks| - 1];
      assert m in c.blocks;
      forall k | 0 <= k < |next.actions| ensures next.actions[k].MissingEndPair() <==> k in next.blocks {
        assert k in next.blocks ==> k in c.blocks;
        if k in c.blocks && k != m {
          var i :| 0 <= i < |c.blocks| && c.blocks[i] == k;
          assert next.blocks[i] == k;
        }
        assert k < n && k != m ==> next.actions[k] == c.actions[k];
      }
    } else {
      forall k | 0 <= k < |next.actions| ensures next.actions[k].MissingEndPair() <==> k in next.blocks {
        if k < n {
          assert next.actions[k] == c.actions[k];
        }
      }
    }
  }

  lemma {:induction false} CompileTagsPair(c: Compiling, tags: seq<Tag>)
    requires c.Valid() && Pairing(c) && CompileTags(c, tags).Some?
    ensures Pairing(CompileTags(c, tags).value)
    decreases |tags|
  {
    if tags != [] {
      CompileTagPairs(c, tags[0]);
      CompileTagsPair(CompileTag(c, tags[0]).value, tags[1..]);
    }
  }

  /** Tags that no tree begins with never come to an end with no block open, whatever was open before. */
  lemma {:induction false} NoTreeFails(c: Compiling, tags: seq<Tag>)
    requires c.Valid() && ReadNodes(tags).NoTree?
    ensures !Complete(CompileTags(c, tags))
    decreases |tags|
  {
    var next := CompileTag(c, tags[0]).value;
    if Opens(tags[0].kind) {
      var body := ReadNodes(tags[1..]);
      if body.NoTree? {
        NoTreeFails(next, tags[1..]);
      } else {
        var inside := Extended(next, FlatAll(body.nodes, |next.actions|));
        ReadIsProper(tags[1..]);
        CompileTree(next, body.nodes);
        CompileBoth(next, TagsAll(body.nodes), body.rest);
        assert inside.actions[|c.actions|] == next.actions[|c.actions|];
        if body.rest != [] && body.rest[0].name == tags[0].name {
          NoTreeFails(CompileTag(inside, body.rest[0]).value, body.rest[1..]);
        }
      }
    } else {
      NoTreeFails(next, tags[1..]);
    }
  }

  /**
    Compiling succeeds exactly on the tags of a tree, and then the actions are the tree laid out flat:
    every block tag names its partner.
   */
  lemma CompileIsReading(tags: seq<Tag>)
    ensures var r := ReadNodes(tags);
      Compile(tags) == if r.Read? && r.rest == [] then Some(FlatAll(r.nodes, 0) + [LAST_ACTION]) else None
  {
    hide CompileTags, ReadNodes, FlatAll;
    var start := Compiling([], []);
    var r := ReadNodes(tags);
    var c := CompileTags(start, tags);
    if c.Some? {
      CompileTagsPair(start, tags);
      PairedIsComplete(c.value);
    }
    if r.NoTree? {
      NoTreeFails(start, tags);
    } else {
      ReadIsProper(tags);
      CompileTree(start, r.nodes);
      CompileBoth(start, TagsAll(r.nodes), r.rest);
      CompileRest(Extended(start, FlatAll(r.nodes, 0)), r.rest);
      assert Extended(start, FlatAll(r.nodes, 0)) == Compiling(FlatAll(r.nodes, 0), []);
    }
  }

  lemma PairedIsComplete(c: Compiling)
    requires c.Valid() && Pairing(c)
    ensures c.blocks == [] <==> !(exists k :: 0 <= k < |c.actions| && c.actions[k].MissingEndPair())
  {
    if c.blocks != [] {
      assert c.blocks[0] in c.blocks;
      assert c.actions[c.blocks[0]].MissingEndPair();
    }
  }

  /** With no block open, a closing tag is unexpected. */
  lemma CompileRest(c: Compiling, rest: seq<Tag>)
    requires c.Valid() && c.blocks == [] && (rest == [] || rest[0].kind == CLOSE_BLOCK)
    ensures CompileTags(c, rest) == if rest == [] then Some(c) else None
  {
  }

  /** There is no other tree with these tags. */
  lemma {:induction false} ReadBack(nodes: seq<Node>, rest: seq<Tag>)
    requires ProperAll(nodes) && (rest == [] || rest[0].kind == CLOSE_BLOCK)
    ensures ReadNodes(TagsAll(nodes) + rest) == Read(nodes, rest)
    decreases nodes
  {
    if nodes == [] {
      assert TagsAll(nodes) + rest == rest;
    } else {
      var more := TagsAll(nodes[1..]) + rest;
      ReadBack(nodes[1..], rest);
      assert [nodes[0]] + nodes[1..] == nodes;
      match nodes[0] {
        case Leaf(tag) =>
          assert TagsAll(nodes) + rest == [tag] + more;
          assert ([tag] + more)[1..] == more;
        case Block(open, body, close) =>
          var behind := [close] + more;
          ReadBack(body, behind);
          BlockAssociates(open, TagsAll(body), close, TagsAll(nodes[1..]), rest);
          assert TagsAll(nodes) + rest == [open] + (TagsAll(body) + behind);
          assert ([open] + (TagsAll(body) + behind))[1..] == TagsAll(body) + behind;
          assert behind[1..] == more;
      }
    }
  }
}
