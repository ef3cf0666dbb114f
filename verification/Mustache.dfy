/**
  `template_t` of `3rdparty/crow/mustache.h`: `parse` appends actions and patches the opening ones, and
  `render_internal` walks the actions with jumps, pushing onto a shared stack and appending to the output.
 */
module Mustache {
  import opened Wrappers
  import opened MustacheSpec
  import opened MustacheProof
  import opened MustacheRender

  /** What a rendering works on: the context stack and the output. */
  class Rendering {
    var stack: seq<Context>
    var out: string

    constructor (ctx: Context)
      ensures stack == [ctx] && out == ""
    {
      stack, out := [ctx], "";
    }
  }

  class Mustache {
    var fragments: seq<string>
    var actions: seq<Action>

    function Compiled(): Template
      reads this
    {
      Template(fragments, actions)
    }

    constructor ()
      ensures Compiled() == Template([], [])
    {
      fragments, actions := [], [];
    }

    /** `parse`, with the tags and the texts around them already found in the body; an exception is `false`. */
    method Parse(tags: seq<Tag>, texts: seq<string>) returns (ok: bool)
      requires Compiled() == Template([], []) && |texts| == |tags| + 1
      modifies this
      ensures ok <==> Compile(tags).Some?
      ensures ok ==> Compiled() == Template(texts, Compile(tags).value)
    {
      ghost var start := Compiling([], []);
      var blockPositions: seq<nat> := [];
      var i := 0;
      ok := true;
      while i < |tags| && ok
        invariant i <= |tags| && fragments == texts[..i]
        invariant ok ==> Compiling(actions, blockPositions).Valid()
        invariant ok ==> CompileTags(start, tags) == CompileTags(Compiling(actions, blockPositions), tags[i..])
        invariant !ok ==> CompileTags(start, tags) == None
      {
        ghost var rest := tags[i..];
        assert rest[0] == tags[i] && rest[1..] == tags[i + 1..];
        assert CompileTags(start, tags) == match CompileTag(Compiling(actions, blockPositions), tags[i])
          case None => None case Some(c) => CompileTags(c, tags[i + 1..]);
        hide CompileTags;
        fragments := fragments + [texts[i]];
        var tag := tags[i];
        if Opens(tag.kind) {
          blockPositions := blockPositions + [|actions|];
          actions := actions + [Action(tag.kind, tag.name, 0, false)];
        } else if tag.kind == CLOSE_BLOCK {
          if blockPositions == [] {
            ok := false;
          } else {
            var matched := blockPositions[|blockPositions| - 1];
            if actions[matched].name != tag.name {
              ok := false;
            } else {
              actions := actions[matched := actions[matched].(pos := |actions|, hasEndMatch := true)];
              actions := actions + [Action(CLOSE_BLOCK, tag.name, matched, false)];
              blockPositions := blockPositions[..|blockPositions| - 1];
            }
          }
        } else {
          actions := actions + [Action(tag.kind, tag.name, 0, false)];
        }
        i := i + 1;
      }
      if ok {
        fragments := fragments + [texts[i]];
        ok := AllPaired();
        actions := actions + [LAST_ACTION];
      }
    }

    method AllPaired() returns (ok: bool)
      ensures ok <==> !(exists k :: 0 <= k < |actions| && actions[k].MissingEndPair())
    {
      ok := true;
      for i := 0 to |actions|
        invariant ok <==> !(exists k :: 0 <= k < i && actions[k].MissingEndPair())
      {
        ok := ok && !actions[i].MissingEndPair();
      }
    }

    /**
      `render_internal` on the actions of a tree: it appends what the tree prints and the text behind it,
      and leaves the stack as it found it; `false` is the exception, exactly when the walk has one.
     */
    method RenderInternal(actionBegin: nat, actionEnd: nat, r: Rendering, ghost nodes: seq<Node>) returns (ok: bool)
      requires |actions| == |fragments| && r.stack != []
      requires Laid(actions, actionBegin, [Level(nodes, actionEnd)])
      modifies r
      ensures ok <==> Walk(Compiled(), nodes, actionBegin, old(r.stack)).Some?
      ensures ok ==> r.stack == old(r.stack)
      ensures ok ==> r.out == old(r.out) + (Walk(Compiled(), nodes, actionBegin, r.stack).value + fragments[actionEnd])
      decreases actionEnd - actionBegin
    {
      hide Walk, WalkEach, Laid, Rest, LeafText, Views;
      ghost var t, base := Compiled(), r.stack;
      ghost var p := Place(actionBegin, [Level(nodes, actionEnd)], base, r.out);
      Begins(t, p, base, actionEnd);
      ghost var goal := Total(t, p);
      var current := actionBegin;
      ok := true;
      while current < actionEnd && ok
        invariant current <= actionEnd && Compiled() == t
        invariant ok ==> p == Place(current, p.levels, r.stack, r.out)
        invariant ok ==> Stands(t, p, base, actionEnd) && Total(t, p) == goal
        invariant !ok ==> goal == None
        decreases actionEnd - current, if ok then 1 else 0
      {
        ActionHere(t, p, base, actionEnd);
        if actions[current].kind == CLOSE_BLOCK {
          OutOf(t, p, base, actionEnd);
          p := Place(p.at + 1, p.levels[1..], p.stack[..|p.stack| - 1], p.out + t.fragments[p.at]);
          r.out := r.out + fragments[current];
          r.stack := r.stack[..|r.stack| - 1];
          current := current + 1;
        } else {
          ok, current, p := Round(current, r, p, base, actionEnd);
        }
      }
      if ok {
        Ends(t, p, base, actionEnd);
        r.out := r.out + fragments[actionEnd];
      }
    }

    /** A tag that is not closing: `next` is where the loop goes on, `q` is the same in the tree. */
    method Round(current: nat, r: Rendering, ghost p: Place, ghost base: seq<Context>, ghost end: nat)
      returns (ok: bool, next: nat, ghost q: Place)
      requires Stands(Compiled(), p, base, end) && p == Place(current, p.levels, r.stack, r.out) && current < end
      requires p.levels != [] && p.levels[0].nodes != []
      modifies r
      ensures current < next <= end
      ensures ok ==> q == Place(next, q.levels, r.stack, r.out)
      ensures ok ==> Stands(Compiled(), q, base, end) && Total(Compiled(), q) == Total(Compiled(), p)
      ensures !ok ==> Total(Compiled(), p) == None
      decreases end - current, 1
    {
      hide Laid, Rest, LeafText, Walk, WalkEach, Total, Stands;
      ghost var t := Compiled();
      next, q := current + 1, p;
      Heads(t, p, base, end);
      if Opens(actions[current].kind) {
        ok, next, q := Section(current, r, p, base, end);
      } else {
        var text := TagText(current, r.stack);
        Past(t, p, base, end, text);
        ok := text.Some?;
        if ok {
          r.out := r.out + fragments[current] + text.value;
          q := Place(next, Behind(p.levels), p.stack, r.out);
        }
      }
    }

    /** What a tag that is no block prints; `None` is the exception. */
    method TagText(current: nat, stack: seq<Context>) returns (text: Option<string>)
      requires current < |actions| == |fragments| && stack != []
      ensures text == LeafText(Compiled(), current, stack)
    {
      hide FindContext, Escape, InsideBlock;
      text := Some("");
      var kind, name := actions[current].kind, actions[current].name;
      if kind == TAG || kind == UNESCAPE_TAG {
        var onlyFirst := IsInsideObjectBlock(current, stack);
        var found := ContextOf(name, stack, onlyFirst);
        if found.Some? {
          match found.value {
            case False => text := Some("false");
            case True => text := Some("true");
            case Number(printed) => text := Some(printed);
            case Str(s) =>
              var out := s;
              if kind == TAG {
                out := Escaped(s);
              }
              text := Some(out);
            case _ => text := None;
          }
        }
      }
    }

    /** `isTagInsideObjectBlock`: backwards over the actions, past the blocks that are closed. */
    method IsInsideObjectBlock(current: nat, stack: seq<Context>) returns (inside: bool)
      requires current <= |actions| && stack != []
      ensures inside <==> stack[|stack| - 1].Object? && InsideBlock(actions, current, 0)
    {
      var openedBlock := 0;
      var i := current;
      inside := false;
      while i > 0 && !inside
        invariant 0 <= i <= |actions|
        invariant inside ==> stack[|stack| - 1].Object? && InsideBlock(actions, current, 0)
        invariant !inside && stack[|stack| - 1].Object? ==>
          InsideBlock(actions, current, 0) == InsideBlock(actions, i, openedBlock)
        decreases i, !inside
      {
        var kind := actions[i - 1].kind;
        if kind == OPEN_BLOCK {
          if openedBlock == 0 && stack[|stack| - 1].Object? {
            inside := true;
          }
          openedBlock := openedBlock - 1;
        } else if kind == CLOSE_BLOCK {
          openedBlock := openedBlock + 1;
        }
        i := i - 1;
      }
    }

    /** The opening tag of a block: jump behind it, render its body for every item, or go into it. */
    method Section(current: nat, r: Rendering, ghost p: Place, ghost base: seq<Context>, ghost end: nat)
      returns (ok: bool, next: nat, ghost q: Place)
      requires Stands(Compiled(), p, base, end) && p == Place(current, p.levels, r.stack, r.out) && current < end
      requires p.levels != [] && p.levels[0].nodes != [] && p.levels[0].nodes[0].Block?
      modifies r
      ensures current < next <= end
      ensures ok ==> q == Place(next, q.levels, r.stack, r.out)
      ensures ok ==> Stands(Compiled(), q, base, end) && Total(Compiled(), q) == Total(Compiled(), p)
      ensures !ok ==> Total(Compiled(), p) == None
      decreases end - current, 0
    {
      hide Laid, Rest, Walk, WalkEach, Total, Stands, Views;
      ghost var t, node := Compiled(), p.levels[0].nodes[0];
      Heads(t, p, base, end);
      BlockHere(t, p, base, end);
      BodyHere(t, p, base, end);
      var action := actions[current];
      assert Tag(action.kind, action.name) == node.open by {
        assert node.open == Tag(node.open.kind, node.open.name);
      }
      var enter, views := ChooseViews(action.kind, action.name, r.stack);
      r.out := r.out + fragments[current];
      if enter {
        assert views == [views[0]];
        Into(t, p, base, end, views[0]);
        r.stack := r.stack + [views[0]];
        ok, next := true, current + 1;
        q := Place(next, Inside(p.levels, current), r.stack, r.out);
      } else {
        ghost var own := WalkEach(t, node.body, current + 1, views, r.stack);
        ok := RenderItems(current, action.pos, views, r, node.body);
        next := action.pos + 1;
        Past(t, p, base, end, own);
        q := Place(next, Behind(p.levels), r.stack, r.out);
      }
    }

    /** The two switches over what the name of a block stands for; `enter` is to push one context and go on. */
    method ChooseViews(kind: Kind, name: string, stack: seq<Context>) returns (enter: bool, views: seq<Context>)
      requires Opens(kind) && stack != []
      ensures views == Views(Tag(kind, name), stack)
      ensures enter ==> |views| == 1
    {
      hide FindContext;
      enter, views := false, [];
      var found := ContextOf(name, stack, false);
      if kind == ELSE_BLOCK {
        if found == None || found == Some(False) || found == Some(Null) || found == Some(List([])) {
          enter, views := true, [Null];
        }
      } else if found.Some? {
        match found.value {
          case List(items) => views := items;
          case Null =>
          case False =>
          case ctx => enter, views := true, [ctx];
        }
      }
    }

    /** The body of a block once for every item of a list. */
    method RenderItems(current: nat, pos: nat, items: seq<Context>, r: Rendering, ghost body: seq<Node>)
      returns (ok: bool)
      requires |actions| == |fragments| && r.stack != [] && current < pos
      requires Laid(actions, current + 1, [Level(body, pos)])
      modifies r
      ensures pos == current + 1 + SizeAll(body) < |actions|
      ensures ok <==> WalkEach(Compiled(), body, current + 1, items, old(r.stack)).Some?
      ensures ok ==> r.stack == old(r.stack)
      ensures ok ==> r.out == old(r.out) + WalkEach(Compiled(), body, current + 1, items, r.stack).value
      decreases pos - current, 0
    {
      ghost var t, base := Compiled(), r.stack;
      assert pos == current + 1 + SizeAll(body) < |actions|;
      hide Laid, Walk, WalkEach;
      ghost var goal := Cat(Some(r.out), WalkEach(t, body, current + 1, items, base));
      assert items[0..] == items;
      ok := true;
      var i := 0;
      while i < |items| && ok
        invariant i <= |items|
        invariant ok ==> r.stack == base
        invariant ok ==> goal == Cat(Some(r.out), WalkEach(t, body, current + 1, items[i..], base))
        invariant !ok ==> goal == None
      {
        WalkNext(t, body, current + 1, items, i, base);
        ghost var out, more := r.out, WalkEach(t, body, current + 1, items[i + 1..], base);
        r.stack := r.stack + [items[i]];
        ok := RenderInternal(current + 1, pos, r, body);
        if ok {
          CatAssociates(Some(out), Some(r.out[|out|..]), more);
          r.stack := r.stack[..|r.stack| - 1];
        }
        i := i + 1;
      }
      if ok {
        assert items[i..] == [];
        WalkNone(t, body, current + 1, base);
      }
    }

    /** `render_string`: what the tree of the template prints, and the text behind the last tag. */
    method RenderString(ctx: Context, ghost tags: seq<Tag>) returns (ok: bool, out: string)
      requires Compile(tags) == Some(actions) && |fragments| == |actions|
      ensures ReadNodes(tags).Read? && SizeAll(ReadNodes(tags).nodes) < |actions|
      ensures var printed := Walk(Compiled(), ReadNodes(tags).nodes, 0, [ctx]);
        (ok <==> printed.Some?) && (ok ==> out == printed.value + fragments[|fragments| - 1])
    {
      CompiledIsLaid(tags);
      var r := new Rendering(ctx);
      ok := RenderInternal(0, |fragments| - 1, r, ReadNodes(tags).nodes);
      out := r.out;
    }
  }

  // ---------------------------------------------------------------- contexts and texts

  /** `find_context`: the innermost context first. */
  method ContextOf(name: string, stack: seq<Context>, onlyFirst: bool) returns (found: Option<Context>)
    requires stack != []
    ensures found == FindContext(name, stack, onlyFirst)
  {
    if name == "." {
      found := Some(stack[|stack| - 1]);
    } else {
      var names := [name];
      var first := false;
      if '.' in name {
        names := NamesOf(name);
        first := onlyFirst;
      }
      found := SearchFor(names, stack, first);
    }
  }

  method SearchFor(names: seq<string>, stack: seq<Context>, onlyFirst: bool) returns (found: Option<Context>)
    ensures found == Search(names, stack, onlyFirst)
  {
    hide Follow;
    found := None;
    var it := |stack|;
    assert stack[..it] == stack;
    while it > 0 && found == None
      invariant it <= |stack|
      invariant Search(names, stack, onlyFirst) ==
                if found == None then Search(names, stack[..it], onlyFirst) else found
      decreases it, found.None?
    {
      assert stack[..it][..it - 1] == stack[..it - 1];
      found := FollowTo(stack[it - 1], names);
      it := if found == None && onlyFirst then 0 else it - 1;
    }
  }

  /** From a context through the fields of the names. */
  method FollowTo(start: Context, names: seq<string>) returns (found: Option<Context>)
    ensures found == Follow(start, names)
  {
    var view, jt := start, 0;
    found := None;
    assert names[0..] == names;
    while jt < |names|
      invariant jt <= |names| && Follow(start, names) == Follow(view, names[jt..])
    {
      var name := names[jt];
      assert names[jt..][0] == name && names[jt..][1..] == names[jt + 1..];
      if !(view.Object? && name in view.fields) {
        return;
      }
      view, jt := view.fields[name], jt + 1;
    }
    found := Some(view);
  }

  /** The parts of a name between its dots. */
  method NamesOf(name: string) returns (names: seq<string>)
    ensures names == Names(name)
  {
    names := [];
    var start, going := 0, true;
    while going
      invariant start <= |name|
      invariant Names(name) == if going then names + Split(name, start) else names
      decreases |name| - start, going
    {
      var dot := DotAt(name, start);
      if dot == |name| {
        names := names + [name[start..]];
        going := false;
      } else {
        assert names + ([name[start..dot]] + Split(name, dot + 1)) == names + [name[start..dot]] + Split(name, dot + 1);
        names := names + [name[start..dot]];
        start := dot + 1;
      }
    }
  }

  /** `find` of a dot from a position on; the length stands for `npos`. */
  method DotAt(name: string, start: nat) returns (dot: nat)
    requires start <= |name|
    ensures dot == DotFrom(name, start)
  {
    dot := start;
    while dot < |name| && name[dot] != '.'
      invariant dot <= |name| && DotFrom(name, start) == DotFrom(name, dot)
    {
      dot := dot + 1;
    }
  }

  /** `escape`. */
  method Escaped(s: string) returns (out: string)
    ensures out == Escape(s)
  {
    hide EscapeChar;
    out := "";
    assert s[0..] == s;
    for i := 0 to |s|
      invariant out + Escape(s[i..]) == Escape(s)
    {
      assert s[i..][0] == s[i] && s[i..][1..] == s[i + 1..];
      assert out + (EscapeChar(s[i]) + Escape(s[i + 1..])) == out + EscapeChar(s[i]) + Escape(s[i + 1..]);
      var e := EscapedChar(s[i]);
      out := out + e;
    }
  }

  /** Its switch. */
  method EscapedChar(c: char) returns (e: string)
    ensures e == EscapeChar(c)
  {
    match c
    case '&' => e := "&amp;";
    case '<' => e := "&lt;";
    case '>' => e := "&gt;";
    case '"' => e := "&quot;";
    case '\'' => e := "&#39;";
    case '/' => e := "&#x2F;";
    case '`' => e := "&#x60;";
    case '=' => e := "&#x3D;";
    case _ => e := [c];
  }
}
