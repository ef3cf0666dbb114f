/**
  The whole life of the trie of `3rdparty/crow/routing.h`: rules are added one by one to an empty
  trie, the trie may be compressed, and then it is asked for URLs.
 */
module RouterTheorem {
  import opened Wrappers
  import opened RouterSpec
  import opened RouterProof

  /** One call of `add`. */
  datatype Rule = Rule(url: string, index: nat, prefix: nat, blueprint: nat)

  /** Every '<' opens a tag, and no character is the terminating zero. */
  predicate WellFormed(rule: Rule) {
    Pieces(rule.url, 0).Some? && Plain(rule.url)
  }

  function Path(rule: Rule): seq<Piece>
    requires WellFormed(rule)
  {
    Pieces(rule.url, 0).value
  }

  const EMPTY_TRIE: Node := Node(0, INVALID_BP_ID, "", None, [])

  /** The trie after all the calls; the first call that finds its pattern taken ends them. */
  function Built(rules: seq<Rule>): Added
    requires forall r :: r in rules ==> WellFormed(r)
  {
    if rules == [] then Done(EMPTY_TRIE)
    else
      var last := rules[|rules| - 1];
      assert last in rules && WellFormed(last);
      match Built(rules[..|rules| - 1])
      case AlreadyExists => AlreadyExists
      case Done(node) => Add(node, last.url, 0, last.index, last.prefix, last.blueprint)
  }

  /** No pattern comes again; the index zero stands for no rule, so it takes no pattern. */
  ghost predicate Distinct(rules: seq<Rule>)
    requires forall r :: r in rules ==> WellFormed(r)
  {
    forall i, j :: 0 <= i < j < |rules| && rules[i].index != 0 ==> Path(rules[i]) != Path(rules[j])
  }

  ghost predicate FromRules(route: Route, rules: seq<Rule>)
    requires forall r :: r in rules ==> WellFormed(r)
  {
    exists r :: r in rules && r.index != 0 && route == (Path(r), r.index)
  }

  /** The rules can all be added exactly if their patterns differ, and the trie has just their routes. */
  lemma {:induction false} BuiltHasTheRules(rules: seq<Rule>)
    requires forall r :: r in rules ==> WellFormed(r)
    ensures Built(rules).Done? <==> Distinct(rules)
    ensures Built(rules).Done? ==>
      && Grown(Built(rules).node)
      && forall q: Route :: q in Routes(Built(rules).node) <==> FromRules(q, rules)
  {
    if rules != [] {
      var n := |rules| - 1;
      var last, before := rules[n], rules[..n];
      BuiltHasTheRules(before);
      assert rules == before + [last];
      assert last in rules;
      assert Distinct(rules) ==> Distinct(before);
      if Built(before).Done? {
        var node := Built(before).node;
        AddGains(node, last.url, 0, last.index, last.prefix, last.blueprint);
        FreeIfDistinct(before, last, node);
        if Built(rules).Done? {
          forall q: Route ensures q in Routes(Built(rules).node) <==> FromRules(q, rules) {
            assert q in Routes(node) <==> FromRules(q, before);
          }
        }
      }
    }
  }

  lemma FreeIfDistinct(before: seq<Rule>, last: Rule, node: Node)
    requires forall r :: r in before + [last] ==> WellFormed(r)
    requires forall r :: r in before ==> WellFormed(r)
    requires Distinct(before)
    requires forall q: Route :: q in Routes(node) <==> FromRules(q, before)
    ensures WellFormed(last) && (Free(node, Path(last)) <==> Distinct(before + [last]))
  {
    var rules := before + [last];
    assert last in rules;
    if Free(node, Path(last)) {
      forall i, j | 0 <= i < j < |rules| && rules[i].index != 0 ensures Path(rules[i]) != Path(rules[j]) {
        if j == |before| {
          assert FromRules((Path(before[i]), before[i].index), before);
          assert (Path(before[i]), before[i].index) in Routes(node);
        } else {
          assert rules[i] == before[i] && rules[j] == before[j];
        }
      }
    }
    if !Free(node, Path(last)) {
      var r: nat :| (Path(last), r) in Routes(node);
      assert FromRules((Path(last), r), before);
      var b :| b in before && b.index != 0 && (Path(last), r) == (Path(b), b.index);
      var i :| 0 <= i < |before| && before[i] == b;
      assert Path(rules[i]) == Path(rules[|before|]);
    }
  }

  // ---------------------------------------------------------------- the least matching rule

  function Match(rule: Rule, req: Request): Option<Params>
    requires WellFormed(rule)
  {
    MatchPath(Path(rule), req, 0, NO_PARAMS)
  }

  ghost predicate LeastOf(routes: seq<Route>, req: Request, found: Found) {
    && (forall q :: q in routes && MatchPath(q.0, req, 0, NO_PARAMS).Some? && q.1 != 0 ==> 0 < found.rule <= q.1)
    && (found.rule != 0 ==>
          exists q :: q in routes && q.1 == found.rule && MatchPath(q.0, req, 0, NO_PARAMS) == Some(found.params))
  }

  lemma {:induction false} BestIsLeast(routes: seq<Route>, req: Request)
    ensures LeastOf(routes, req, Best(routes, req, 0, NO_PARAMS, NOTHING))
  {
    if routes != [] {
      var n := |routes| - 1;
      var before, last := routes[..n], routes[n];
      BestIsLeast(before, req);
      assert routes == before + [last];
      BestOfBoth(before, [last], req, 0, NO_PARAMS, NOTHING);
      var b := Best(before, req, 0, NO_PARAMS, NOTHING);
      var f := Best(routes, req, 0, NO_PARAMS, NOTHING);
      var one: seq<Route> := [last];
      assert one[1..] == [];
      assert f == Better(b, Outcome(last, req, 0, NO_PARAMS));
      if f.rule != 0 && f != b {
        assert last in routes;
      }
    }
  }

  /** A lookup result is right: the least index of a matching rule with that rule's parameters, or nothing. */
  ghost predicate RightFor(rules: seq<Rule>, req: Request, found: Found)
    requires forall r :: r in rules ==> WellFormed(r)
  {
    && (found.rule == 0 <==> forall r :: r in rules && r.index != 0 ==> Match(r, req) == None)
    && (forall r :: r in rules && r.index != 0 && Match(r, req).Some? ==> found.rule <= r.index)
    && (found.rule != 0 ==> exists r :: r in rules && r.index == found.rule && Match(r, req) == Some(found.params))
  }

  lemma {:induction false} GrownIsKeyed(node: Node)
    requires Grown(node)
    ensures Keyed(node)
    decreases node, 1
  {
    GrownAllKeyed(node.children);
  }

  lemma {:induction false} GrownAllKeyed(children: seq<Node>)
    requires forall i :: 0 <= i < |children| ==> OneStep(children[i]) && Grown(children[i])
    ensures KeyedAll(children)
    decreases children, 0
  {
    if children != [] {
      assert OneStep(children[0]);
      GrownIsKeyed(children[0]);
      GrownAllKeyed(children[1..]);
    }
  }

  lemma LeastIsRight(rules: seq<Rule>, routes: seq<Route>, req: Request, found: Found)
    requires forall r :: r in rules ==> WellFormed(r)
    requires forall q: Route :: q in routes <==> FromRules(q, rules)
    requires LeastOf(routes, req, found)
    ensures RightFor(rules, req, found)
  {
    forall r | r in rules && r.index != 0 && Match(r, req).Some? ensures 0 < found.rule <= r.index {
      assert FromRules((Path(r), r.index), rules);
      assert (Path(r), r.index) in routes;
    }
    if found.rule != 0 {
      var q :| q in routes && q.1 == found.rule && MatchPath(q.0, req, 0, NO_PARAMS) == Some(found.params);
      assert FromRules(q, rules);
      var r :| r in rules && r.index != 0 && q == (Path(r), r.index);
      assert Match(r, req) == Some(found.params);
    }
  }

  /**
    For every list of well-formed rules with different patterns and for every URL, the trie finds the
    least index among the rules whose pattern matches, with the parameters of such a match, and it
    finds the same after it was compressed.
   */
  lemma LookupIsPatternMatching(rules: seq<Rule>, req: Request)
    requires forall r :: r in rules ==> WellFormed(r)
    requires Distinct(rules)
    ensures Built(rules).Done?
    ensures RightFor(rules, req, Find(Built(rules).node, req, 0, NO_PARAMS))
    ensures RightFor(rules, req, Find(Optimize(Built(rules).node), req, 0, NO_PARAMS))
  {
    BuiltHasTheRules(rules);
    var trie := Built(rules).node;
    GrownIsKeyed(trie);
    var best := Best(Routes(trie), req, 0, NO_PARAMS, NOTHING);
    FindIsBest(trie, req, 0, NO_PARAMS);
    OptimizeKeepsLookup(trie, req);
    BestIsLeast(Routes(trie), req);
    LeastIsRight(rules, Routes(trie), req, best);
    SameIsRight(rules, req, best, Find(trie, req, 0, NO_PARAMS));
    SameIsRight(rules, req, best, Find(Optimize(trie), req, 0, NO_PARAMS));
  }

  lemma SameIsRight(rules: seq<Rule>, req: Request, best: Found, found: Found)
    requires forall r :: r in rules ==> WellFormed(r)
    requires RightFor(rules, req, best) && Normal(found) == best
    ensures RightFor(rules, req, found)
  {
  }
}
