/**
  Zero characters in patterns: `add` in `3rdparty/crow/routing.h` compares a character with the first
  one of a child's key, and a parameter has no key. Patterns without a zero are the only ones that are
  never refused wrongly.
 */
module RouterZero {
  import opened Wrappers
  import opened RouterSpec
  import opened RouterProof
  import opened RouterTheorem

  /** The pattern with a parameter in the place of every zero. */
  function Unzeroed(url: string): string {
    if url == "" then "" else (if url[0] == '\0' then "<int>" else [url[0]]) + Unzeroed(url[1..])
  }

  function UnzeroedPieces(path: seq<Piece>): (r: seq<Piece>)
    ensures |r| == |path|
  {
    if path == [] then []
    else [UnzeroedPiece(path[0])] + UnzeroedPieces(path[1..])
  }

  lemma {:induction false} UnzeroedIsPlain(url: string)
    ensures Plain(Unzeroed(url))
  {
    if url != "" {
      UnzeroedIsPlain(url[1..]);
    }
  }

  // ---------------------------------------------------------------- tags

  /** No tag begins with another. */
  lemma TagsApart(url: string, i: nat, j: nat, k: nat)
    requires j < |TAGS| && k < |TAGS| && HasText(url, i, TAGS[j].1) && HasText(url, i, TAGS[k].1)
    ensures j == k
  {
    var a, b := TAGS[j].1, TAGS[k].1;
    forall n: nat | n < |a| && n < |b| ensures a[n] == b[n] {
      assert url[i..i + |a|][n] == url[i + n] == url[i..i + |b|][n];
    }
    assert a[1] == b[1];
    if |a| > 4 && |b| > 4 {
      assert a[4] == b[4];
    }
  }

  lemma {:induction false} TagIsFound(url: string, i: nat, k: nat, from: nat)
    requires from <= k < |TAGS| && HasText(url, i, TAGS[k].1)
    ensures TagFrom(url, i, from) == Some((TAGS[k].0, |TAGS[k].1|))
    decreases k - from
  {
    if from < k {
      if HasText(url, i, TAGS[from].1) {
        TagsApart(url, i, from, k);
      }
      TagIsFound(url, i, k, from + 1);
    }
  }

  lemma {:induction false} WhichTag(url: string, i: nat, from: nat) returns (k: nat)
    requires i <= |url| && from <= |TAGS| && TagFrom(url, i, from).Some?
    ensures k < |TAGS| && HasText(url, i, TAGS[k].1) && TagFrom(url, i, from) == Some((TAGS[k].0, |TAGS[k].1|))
    decreases |TAGS| - from
  {
    if HasText(url, i, TAGS[from].1) {
      k := from;
    } else {
      k := WhichTag(url, i, from + 1);
    }
  }

  lemma TagIsPlain(k: nat)
    requires k < |TAGS|
    ensures Plain(TAGS[k].1) && TAGS[k].1 != "" && TAGS[k].1[0] == '<'
  {
  }

  lemma TagHasNoZero(url: string, i: nat, k: nat)
    requires k < |TAGS| && HasText(url, i, TAGS[k].1)
    ensures forall at :: i <= at < i + |TAGS[k].1| ==> url[at] != '\0'
  {
    var tag := TAGS[k].1;
    TagIsPlain(k);
    forall at | i <= at < i + |tag| ensures url[at] != '\0' {
      assert url[i..i + |tag|][at - i] == tag[at - i];
    }
  }

  lemma {:induction false} UnzeroedTag(tag: string, rest: string)
    requires Plain(tag)
    ensures Unzeroed(tag + rest) == tag + Unzeroed(rest)
    decreases |tag|
  {
    if tag == "" {
      assert tag + rest == rest;
    } else {
      assert (tag + rest)[1..] == tag[1..] + rest;
      UnzeroedTag(tag[1..], rest);
    }
  }

  // ---------------------------------------------------------------- the two patterns

  /** The step of a pattern at a position, and where the next one is. */
  function StepAt(url: string, i: nat): (p: Piece)
    requires i < |url| && Pieces(url, i).Some?
  {
    if url[i] == '<' then Par(TagFrom(url, i, 0).value.0) else Chr(url[i])
  }

  function NextAt(url: string, i: nat): (next: nat)
    requires i < |url| && Pieces(url, i).Some?
    ensures i < next <= |url| && Pieces(url, next).Some?
    ensures Pieces(url, i) == Prepend(StepAt(url, i), Pieces(url, next))
  {
    if url[i] == '<' then i + TagFrom(url, i, 0).value.1 else i + 1
  }

  /** What becomes of a step. */
  function UnzeroedPiece(p: Piece): Piece {
    if p == Chr('\0') then Par(INT) else p
  }

  /** What the pattern without zeros begins with, behind some text, and what is then left of it. */
  ghost predicate StepsAlike(url: string, i: nat, before: string, step: string)
    requires i < |url| && Pieces(url, i).Some?
  {
    var w := before + Unzeroed(url[i..]);
    && w == before + step + Unzeroed(url[NextAt(url, i)..]) && step != ""
    && (Pieces(w, |before| + |step|).Some? ==>
          && Pieces(w, |before|).Some?
          && StepAt(w, |before|) == UnzeroedPiece(StepAt(url, i)) && NextAt(w, |before|) == |before| + |step|)
  }

  lemma UnzeroedStep(url: string, i: nat, before: string) returns (step: string)
    requires i < |url| && Pieces(url, i).Some?
    ensures StepsAlike(url, i, before, step)
  {
    hide StepsAlike, Unzeroed, TagFrom, Pieces;
    if url[i] == '<' {
      step := TagStep(url, i, before);
    } else if url[i] == '\0' {
      step := "<int>";
      ZeroStep(url, i, before);
    } else {
      step := [url[i]];
      CharStep(url, i, before);
    }
  }

  lemma TagStep(url: string, i: nat, before: string) returns (step: string)
    requires i < |url| && Pieces(url, i).Some? && url[i] == '<'
    ensures StepsAlike(url, i, before, step)
  {
    hide Unzeroed, TagFrom, Plain;
    var k := WhichTag(url, i, 0);
    step := TAGS[k].1;
    TagIsPlain(k);
    var rest := url[i + |step|..];
    assert url[i..] == step + rest;
    UnzeroedTag(step, rest);
    Joined(before, step, Unzeroed(rest));
    TagIsFound(before + step + Unzeroed(rest), |before|, k, 0);
  }

  lemma ZeroStep(url: string, i: nat, before: string)
    requires i < |url| && Pieces(url, i).Some? && url[i] == '\0'
    ensures StepsAlike(url, i, before, "<int>")
  {
    hide TagFrom;
    var rest := url[i + 1..];
    assert url[i..][1..] == rest;
    Joined(before, "<int>", Unzeroed(rest));
    TagIsFound(before + "<int>" + Unzeroed(rest), |before|, 0, 0);
  }

  lemma CharStep(url: string, i: nat, before: string)
    requires i < |url| && Pieces(url, i).Some? && url[i] != '<' && url[i] != '\0'
    ensures StepsAlike(url, i, before, [url[i]])
  {
    hide TagFrom;
    var rest := url[i + 1..];
    assert url[i..][1..] == rest;
    Joined(before, [url[i]], Unzeroed(rest));
  }

  lemma Joined(before: string, step: string, rest: string)
    requires step != ""
    ensures before + (step + rest) == before + step + rest
    ensures (before + step + rest)[|before|] == step[0] && HasText(before + step + rest, |before|, step)
  {
    assert (before + step + rest)[|before|..|before| + |step|] == step;
  }

  /** Without zeros the pattern has the same steps, but for a parameter in the place of each. */
  lemma {:induction false} UnzeroedHasPieces(url: string, i: nat, before: string)
    requires i <= |url| && Pieces(url, i).Some?
    ensures Pieces(before + Unzeroed(url[i..]), |before|) == Some(UnzeroedPieces(Pieces(url, i).value))
    decreases |url| - i
  {
    hide Unzeroed, TagFrom;
    if i < |url| {
      var step := UnzeroedStep(url, i, before);
      UnzeroedHasPieces(url, NextAt(url, i), before + step);
      UnzeroedMore(StepAt(url, i), Pieces(url, NextAt(url, i)).value);
    } else {
      NothingLeft(url, before);
    }
  }

  lemma NothingLeft(url: string, before: string)
    ensures Unzeroed(url[|url|..]) == "" && before + Unzeroed(url[|url|..]) == before
    ensures Pieces(url, |url|) == Some([]) && Pieces(before, |before|) == Some([])
  {
  }

  lemma UnzeroedMore(p: Piece, path: seq<Piece>)
    ensures UnzeroedPieces([p] + path) == [UnzeroedPiece(p)] + UnzeroedPieces(path)
  {
    assert ([p] + path)[1..] == path;
  }

  lemma {:induction false} ZeroIsAPiece(url: string, i: nat, at: nat)
    requires i <= at < |url| && url[at] == '\0' && Pieces(url, i).Some?
    ensures Chr('\0') in Pieces(url, i).value
    decreases |url| - i
  {
    if url[i] == '<' {
      var k := WhichTag(url, i, 0);
      TagHasNoZero(url, i, k);
      ZeroIsAPiece(url, i + |TAGS[k].1|, at);
    } else if i < at {
      ZeroIsAPiece(url, i + 1, at);
    }
  }

  // ---------------------------------------------------------------- the refusal

  /** A fresh trie with the pattern without zeros refuses the pattern with them. */
  lemma {:induction false} UnzeroedRefuses(url: string, i: nat, before: string, node: Node, rule: nat, other: nat,
                                           prefix: nat, blueprint: nat)
    requires i <= |url| && Pieces(url, i).Some? && node.children == [] && node.rule == 0 && other != 0
    ensures Pieces(before + Unzeroed(url[i..]), |before|).Some?
    ensures var added := Add(node, before + Unzeroed(url[i..]), |before|, other, 0, INVALID_BP_ID);
      added.Done? && added.node.key == node.key && added.node.param == node.param
      && Add(added.node, url, i, rule, prefix, blueprint) == AlreadyExists
    decreases |url| - i
  {
    hide Unzeroed, TagFrom, Pieces, Add;
    UnzeroedHasPieces(url, i, before);
    var w := before + Unzeroed(url[i..]);
    if i < |url| {
      var step := UnzeroedStep(url, i, before);
      var p := StepAt(w, |before|);
      var fresh_ := FreshNode(p, INVALID_BP_ID);
      UnzeroedHasPieces(url, NextAt(url, i), before + step);
      UnzeroedRefuses(url, NextAt(url, i), before + step, fresh_, rule, other, prefix, blueprint);
      AddFirst(node, w, |before|, other);
      var child := Add(fresh_, w, |before + step|, other, 0, INVALID_BP_ID).node;
      AddAgain(node.(children := [child]), child, url, i, rule, prefix, blueprint);
    } else {
      NothingLeft(url, before);
      AddEnds(node, url, w, rule, other, prefix, blueprint);
    }
  }

  lemma AddEnds(node: Node, url: string, w: string, rule: nat, other: nat, prefix: nat, blueprint: nat)
    requires Pieces(url, |url|).Some? && Pieces(w, |w|).Some? && node.rule == 0 && other != 0
    ensures Add(node, w, |w|, other, 0, INVALID_BP_ID) == Done(node.(rule := other))
    ensures Add(node.(rule := other), url, |url|, rule, prefix, blueprint) == AlreadyExists
  {
  }

  /** The first pattern below a node without children makes one child. */
  lemma AddFirst(node: Node, w: string, i: nat, rule: nat)
    requires i < |w| && Pieces(w, i).Some? && node.children == []
    ensures var added := Add(FreshNode(StepAt(w, i), INVALID_BP_ID), w, NextAt(w, i), rule, 0, INVALID_BP_ID);
      Add(node, w, i, rule, 0, INVALID_BP_ID) ==
      if added.Done? then Done(node.(children := [added.node])) else AlreadyExists
  {
    assert ChildFor(node.children, StepAt(w, i), 0) == 0;
    assert [] + [Add(FreshNode(StepAt(w, i), INVALID_BP_ID), w, NextAt(w, i), rule, 0, INVALID_BP_ID)] ==
           [Add(FreshNode(StepAt(w, i), INVALID_BP_ID), w, NextAt(w, i), rule, 0, INVALID_BP_ID)];
  }

  /** What an only child that fits refuses is refused. */
  lemma AddAgain(node: Node, child: Node, url: string, i: nat, rule: nat, prefix: nat, blueprint: nat)
    requires i < |url| && Pieces(url, i).Some? && node.children == [child] && Fits(child, StepAt(url, i))
    requires Add(child, url, NextAt(url, i), rule, prefix, blueprint) == AlreadyExists
    ensures Add(node, url, i, rule, prefix, blueprint) == AlreadyExists
  {
    assert ChildFor(node.children, StepAt(url, i), 0) == 0;
  }

  /** In every trie the pattern is refused only if it has a rule there. */
  ghost predicate NeverRefusedWrongly(url: string)
    requires Pieces(url, 0).Some?
  {
    forall rules: seq<Rule>, rule: Rule ::
      rule.url == url && (forall r :: r in rules ==> WellFormed(r)) && Built(rules).Done? ==>
        (Add(Built(rules).node, url, 0, rule.index, rule.prefix, rule.blueprint) == AlreadyExists <==>
         exists r :: r in rules && r.index != 0 && Path(r) == Pieces(url, 0).value)
  }

  /** That holds exactly of the patterns without a zero character. */
  lemma PlainIffNeverRefusedWrongly(url: string)
    requires Pieces(url, 0).Some?
    ensures Plain(url) <==> NeverRefusedWrongly(url)
  {
    if Plain(url) {
      forall rules: seq<Rule>, rule: Rule |
        rule.url == url && (forall r :: r in rules ==> WellFormed(r)) && Built(rules).Done?
        ensures Add(Built(rules).node, url, 0, rule.index, rule.prefix, rule.blueprint) == AlreadyExists <==>
                exists r :: r in rules && r.index != 0 && Path(r) == Pieces(url, 0).value
      {
        PlainIsRefusedIfTaken(rules, rule);
      }
    } else {
      var at: nat :| at < |url| && url[at] == '\0';
      var other := ZeroIsRefusedFor(url, at);
      var rule := Rule(url, 1, 0, INVALID_BP_ID);
      assert Add(Built([other]).node, url, 0, rule.index, rule.prefix, rule.blueprint) == AlreadyExists;
    }
  }

  lemma PlainIsRefusedIfTaken(rules: seq<Rule>, rule: Rule)
    requires (forall r :: r in rules ==> WellFormed(r)) && WellFormed(rule) && Built(rules).Done?
    ensures Add(Built(rules).node, rule.url, 0, rule.index, rule.prefix, rule.blueprint) == AlreadyExists <==>
            exists r :: r in rules && r.index != 0 && Path(r) == Path(rule)
  {
    BuiltHasTheRules(rules);
    var node := Built(rules).node;
    AddGains(node, rule.url, 0, rule.index, rule.prefix, rule.blueprint);
    if r :| r in rules && r.index != 0 && Path(r) == Path(rule) {
      assert FromRules((Path(r), r.index), rules);
      assert (Path(rule), r.index) in Routes(node);
    }
    if !Free(node, Path(rule)) {
      var n: nat :| (Path(rule), n) in Routes(node);
      assert FromRules((Path(rule), n), rules);
    }
  }

  /** A rule with another pattern behind which a pattern with a zero is refused. */
  lemma ZeroIsRefusedFor(url: string, at: nat) returns (other: Rule)
    requires Pieces(url, 0).Some? && at < |url| && url[at] == '\0'
    ensures WellFormed(other) && Path(other) != Pieces(url, 0).value && Built([other]).Done?
    ensures forall rule: nat, prefix: nat, blueprint: nat ::
      Add(Built([other]).node, url, 0, rule, prefix, blueprint) == AlreadyExists
  {
    other := Rule(Unzeroed(url), 1, 0, INVALID_BP_ID);
    assert url[0..] == url && "" + Unzeroed(url) == Unzeroed(url);
    UnzeroedHasPieces(url, 0, "");
    UnzeroedIsPlain(url);
    PlainPieces(Unzeroed(url), 0);
    ZeroIsAPiece(url, 0, at);
    assert [other][..0] == [];
    forall rule: nat, prefix: nat, blueprint: nat
      ensures Built([other]).Done? && Add(Built([other]).node, url, 0, rule, prefix, blueprint) == AlreadyExists
    {
      UnzeroedRefuses(url, 0, "", EMPTY_TRIE, rule, 1, prefix, blueprint);
    }
    UnzeroedRefuses(url, 0, "", EMPTY_TRIE, 1, 1, 0, INVALID_BP_ID);
  }

  /** In a trie as a router has it, where every pattern begins with a slash: "/\0" is refused behind "/<int>". */
  lemma ZeroIsTakenForAParameter()
    ensures Pieces("/<int>", 0) == Some([Chr('/'), Par(INT)]) && Pieces("/\0", 0) == Some([Chr('/'), Chr('\0')])
    ensures var trie := Add(EMPTY_TRIE, "/<int>", 0, 1, 0, INVALID_BP_ID);
      && trie.Done? && IsSimple(trie.node)
      && Add(trie.node, "/\0", 0, 2, 0, INVALID_BP_ID) == AlreadyExists
  {
    hide Pieces, Add, Unzeroed, UnzeroedPieces, TagFrom;
    var url, w := "/\0", "/<int>";
    SlashZero();
    UnzeroedHasPieces(url, 0, "");
    UnzeroedRefuses(url, 0, "", EMPTY_TRIE, 2, 1, 0, INVALID_BP_ID);
    UnzeroedHasPieces(url, 1, "/");
    UnzeroedRefuses(url, 1, "/", FreshNode(Chr('/'), INVALID_BP_ID), 2, 1, 0, INVALID_BP_ID);
    AddFirst(EMPTY_TRIE, w, 0, 1);
  }

  lemma SlashZero()
    ensures var url := "/\0";
      && Pieces(url, 1) == Some([Chr('\0')]) && Pieces(url, 0) == Some([Chr('/'), Chr('\0')])
      && UnzeroedPieces([Chr('/'), Chr('\0')]) == [Chr('/'), Par(INT)]
      && "" + Unzeroed(url[0..]) == "/<int>" && "/" + Unzeroed(url[1..]) == "/<int>"
  {
    var url := "/\0";
    assert [Chr('\0')] + [] == [Chr('\0')] && [Chr('/')] + [Chr('\0')] == [Chr('/'), Chr('\0')];
    assert Pieces(url, 2) == Some([]);
    assert Pieces(url, 1) == Prepend(Chr('\0'), Some([])) == Some([Chr('\0')]);
    assert Pieces(url, 0) == Prepend(Chr('/'), Some([Chr('\0')])) == Some([Chr('/'), Chr('\0')]);
    assert url[0..] == url && url[1..] == "\0" && Unzeroed("") == "" && Unzeroed("\0") == "<int>" + "";
    assert Unzeroed(url) == "/" + "<int>";
    UnzeroedMore(Chr('\0'), []);
    UnzeroedMore(Chr('/'), [Chr('\0')]);
    assert [Chr('\0')] + [] == [Chr('\0')] && [Par(INT)] + [] == [Par(INT)] && UnzeroedPieces([]) == [];
    assert [Chr('/')] + [Par(INT)] == [Chr('/'), Par(INT)];
  }
}
