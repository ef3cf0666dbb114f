/**
  What names and tags of `3rdparty/crow/mustache.h` stand for: a name leads from the innermost context
  from which it leads anywhere, and what is printed for a tag is no markup.
 */
module MustacheContext {
  import opened Wrappers
  import opened MustacheSpec

  // ---------------------------------------------------------------- names

  function JoinedNames(names: seq<string>): string
    requires names != []
  {
    if |names| == 1 then names[0] else names[0] + ("." + JoinedNames(names[1..]))
  }

  /** The names of a dotted name have no dots, and dots between them are that name. */
  lemma NamesMean(name: string)
    ensures JoinedNames(Names(name)) == name
    ensures forall n :: n in Names(name) ==> '.' !in n
  {
    SplitMeans(name, 0);
    assert name[0..] == name;
  }

  lemma {:induction false} SplitMeans(name: string, from: nat)
    requires from <= |name|
    ensures JoinedNames(Split(name, from)) == name[from..]
    ensures forall n :: n in Split(name, from) ==> '.' !in n
    decreases |name| - from
  {
    var dot := DotFrom(name, from);
    if dot < |name| {
      SplitMeans(name, dot + 1);
      var more := Split(name, dot + 1);
      assert ([name[from..dot]] + more)[1..] == more;
      assert name[from..] == name[from..dot] + ("." + name[dot + 1..]);
    }
  }

  // ---------------------------------------------------------------- contexts

  /** Each context has the field named, and the next one is its value. */
  predicate IsPath(views: seq<Context>, names: seq<string>) {
    && |views| == |names| + 1
    && forall i :: 0 <= i < |names| ==>
         views[i].Object? && names[i] in views[i].fields && views[i].fields[names[i]] == views[i + 1]
  }

  /** Names lead to where the fields of these names lead. */
  lemma {:induction false} FollowMeans(view: Context, names: seq<string>, v: Context)
    ensures Follow(view, names) == Some(v) <==>
      exists views :: IsPath(views, names) && views[0] == view && views[|names|] == v
    decreases |names|
  {
    if names == [] {
      assert IsPath([view], names);
    } else {
      if Follow(view, names) == Some(v) {
        var next := view.fields[names[0]];
        FollowMeans(next, names[1..], v);
        var views :| IsPath(views, names[1..]) && views[0] == next && views[|names| - 1] == v;
        var all := [view] + views;
        forall i | 0 <= i < |names|
          ensures all[i].Object? && names[i] in all[i].fields && all[i].fields[names[i]] == all[i + 1]
        {
          if i > 0 {
            assert names[i] == names[1..][i - 1];
          }
        }
        assert IsPath(all, names);
      }
      if views: seq<Context> :| IsPath(views, names) && views[0] == view && views[|names|] == v {
        PathBehind(views, names);
        FollowMeans(views[1], names[1..], v);
      }
    }
  }

  lemma PathBehind(views: seq<Context>, names: seq<string>)
    requires IsPath(views, names) && names != []
    ensures IsPath(views[1..], names[1..])
  {
    var rest, more := views[1..], names[1..];
    forall i | 0 <= i < |more|
      ensures rest[i].Object? && more[i] in rest[i].fields && rest[i].fields[more[i]] == rest[i + 1]
    {
      assert rest[i] == views[i + 1] && more[i] == names[i + 1] && rest[i + 1] == views[i + 2];
    }
  }

  /** A search finds what the innermost context leads to that leads anywhere. */
  lemma {:induction false} SearchMeans(names: seq<string>, stack: seq<Context>, v: Context)
    ensures Search(names, stack, false) == Some(v) <==>
      exists i :: 0 <= i < |stack| && Follow(stack[i], names) == Some(v) && NoneAbove(names, stack, i)
    decreases |stack|
  {
    hide Follow;
    if stack != [] {
      var top, rest := |stack| - 1, stack[..|stack| - 1];
      SearchMeans(names, rest, v);
      if Follow(stack[top], names).Some? {
        assert NoneAbove(names, stack, top);
      } else {
        forall i | 0 <= i < top ensures NoneAbove(names, stack, i) <==> NoneAbove(names, rest, i) {
          if NoneAbove(names, rest, i) {
            forall j | i < j < |stack| ensures Follow(stack[j], names) == None {
              assert j < top ==> rest[j] == stack[j];
            }
          }
          if NoneAbove(names, stack, i) {
            forall j | i < j < top ensures Follow(rest[j], names) == None {
              assert rest[j] == stack[j];
            }
          }
        }
        assert forall i :: 0 <= i < top ==> rest[i] == stack[i];
      }
    }
  }

  predicate NoneAbove(names: seq<string>, stack: seq<Context>, i: int) {
    forall j :: i < j < |stack| && j >= 0 ==> Follow(stack[j], names) == None
  }

  /** Only the innermost context counts where a tag stands in the block of an object. */
  lemma OnlyFirst(names: seq<string>, stack: seq<Context>)
    requires stack != []
    ensures Search(names, stack, true) == Follow(stack[|stack| - 1], names)
  {
  }

  // ---------------------------------------------------------------- printed texts

  /** No character of markup is left. */
  lemma {:induction false} EscapedIsNoMarkup(s: string)
    ensures forall c :: c in "<>\"'/`=" ==> c !in Escape(s)
  {
    if s != "" {
      EscapedIsNoMarkup(s[1..]);
      CharIsNoMarkup(s[0]);
    }
  }

  lemma CharIsNoMarkup(c: char)
    ensures forall d :: d in "<>\"'/`=" ==> d !in EscapeChar(c)
  {
  }

  /** And other characters stay, but for the ampersand. */
  lemma {:induction false} EscapedStays(s: string)
    requires forall c :: c in s ==> c !in "&<>\"'/`="
    ensures Escape(s) == s
  {
    if s != "" {
      assert s[0] in s && [s[0]] + s[1..] == s;
      EscapedStays(s[1..]);
    }
  }
}
