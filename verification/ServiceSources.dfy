/**
  The include worklist of `scripts/collect-licenses.py`: for each service id, the files that compile into
  the service.
 */
module ServiceSources {
  import opened Wrappers

  type Path = string

  /**
    The file system as the script sees it: the files there are, the `.cpp` beside a file, and the paths
    that its include lines resolve to, of which only those below the service root count.
   */
  datatype Tree = Tree(files: set<Path>, sibling: Path -> Path, includes: Path -> seq<Path>, below: Path -> bool)

  /** A header and the service id it declares, if any. */
  datatype Header = Header(path: Path, id: Option<string>)

  /** From a file to its sibling, or along an include line. */
  predicate Edge(t: Tree, p: Path, q: Path) {
    (q == t.sibling(p) && q in t.files) || (q in t.includes(p) && t.below(q))
  }

  ghost predicate Chain(t: Tree, path: seq<Path>) {
    && path != [] && (forall i :: 0 <= i < |path| ==> path[i] in t.files)
    && forall i :: 0 < i < |path| ==> Edge(t, path[i - 1], path[i])
  }

  /** Existing files all the way, from the first to the last. */
  ghost predicate Reaches(t: Tree, from: Path, to: Path) {
    exists path :: Chain(t, path) && path[0] == from && path[|path| - 1] == to
  }

  lemma ReachesItself(t: Tree, p: Path)
    requires p in t.files
    ensures Reaches(t, p, p)
  {
    assert Chain(t, [p]);
  }

  lemma ReachesNext(t: Tree, from: Path, p: Path, q: Path)
    requires Reaches(t, from, p) && Edge(t, p, q) && q in t.files
    ensures Reaches(t, from, q)
  {
    var path :| Chain(t, path) && path[0] == from && path[|path| - 1] == p;
    var longer := path + [q];
    assert Chain(t, longer) && longer[0] == from && longer[|longer| - 1] == q;
  }

  /** A set that holds a file and every existing neighbour of what it holds, holds all that is reached. */
  lemma {:induction false} ClosedHolds(t: Tree, closure: set<Path>, path: seq<Path>)
    requires Chain(t, path) && path[0] in closure
    requires forall p, q :: p in closure && q in t.files && Edge(t, p, q) ==> q in closure
    ensures path[|path| - 1] in closure
    decreases |path|
  {
    if |path| > 1 {
      var n := |path| - 1;
      assert Chain(t, path[..n]);
      ClosedHolds(t, closure, path[..n]);
      assert Edge(t, path[n - 1], path[n]);
    }
  }

  /**
    The worklist of one header: it ends however the includes go round in circles, with exactly the
    existing files that the header reaches.
   */
  method Closure(t: Tree, header: Path) returns (closure: set<Path>)
    ensures forall p :: p in closure <==> Reaches(t, header, p)
  {
    hide Edge, Reaches;
    var pending := [header];
    closure := {};
    if header in t.files {
      ReachesItself(t, header);
    }
    while pending != []
      invariant closure <= t.files && (header in t.files ==> header in closure || header in pending)
      invariant forall p :: p in closure ==> Reaches(t, header, p)
      invariant forall p :: p in pending && p in t.files ==> Reaches(t, header, p)
      invariant forall p, q :: p in closure && q in t.files && Edge(t, p, q) ==> q in closure || q in pending
      decreases |t.files - closure|, |pending|
    {
      var current := pending[|pending| - 1];
      ghost var before, were := pending, closure;
      pending := pending[..|pending| - 1];
      assert forall p :: p in before ==> p in pending || p == current;
      if current !in closure && current in t.files {
        closure := closure + {current};
        assert t.files - closure == (t.files - were) - {current};
        pending := Neighbours(t, current, pending);
        forall q | Edge(t, current, q) && q in t.files ensures Reaches(t, header, q) {
          ReachesNext(t, header, current, q);
        }
      }
    }
    forall p | Reaches(t, header, p) ensures p in closure {
      AllReached(t, closure, header, p);
    }
  }

  lemma AllReached(t: Tree, closure: set<Path>, header: Path, p: Path)
    requires Reaches(t, header, p) && (header in t.files ==> header in closure)
    requires forall p, q :: p in closure && q in t.files && Edge(t, p, q) ==> q in closure
    ensures p in closure
  {
    var path :| Chain(t, path) && path[0] == header && path[|path| - 1] == p;
    ClosedHolds(t, closure, path);
  }

  /** What a file puts on the worklist: its sibling, and what it includes. */
  method Neighbours(t: Tree, current: Path, pending: seq<Path>) returns (more: seq<Path>)
    ensures forall q :: q in more <==> q in pending || Edge(t, current, q)
  {
    more := pending;
    if t.sibling(current) in t.files {
      more := more + [t.sibling(current)];
    }
    more := Includes(t, current, more);
  }

  /** The loop over the include lines of a file. */
  method Includes(t: Tree, current: Path, pending: seq<Path>) returns (more: seq<Path>)
    ensures forall q :: q in more <==> q in pending || (q in t.includes(current) && t.below(q))
  {
    more := pending;
    var targets := t.includes(current);
    for i := 0 to |targets|
      invariant forall q :: q in more <==> q in pending || (q in targets[..i] && t.below(q))
    {
      assert targets[..i + 1] == targets[..i] + [targets[i]];
      if t.below(targets[i]) {
        more := more + [targets[i]];
      }
    }
    assert targets[..|targets|] == targets;
  }

  /** Some header declares the id and reaches the file. */
  ghost predicate Belongs(t: Tree, headers: seq<Header>, id: string, p: Path) {
    exists h :: h in headers && h.id == Some(id) && Reaches(t, h.path, p)
  }

  ghost predicate Declared(headers: seq<Header>, id: string) {
    exists h :: h in headers && h.id == Some(id)
  }

  /** `service_sources`: for every declared id, the files that its headers reach, and no other id. */
  method Sources(t: Tree, rootIsDir: bool, headers: seq<Header>) returns (services: map<string, set<Path>>)
    ensures !rootIsDir ==> services == map[]
    ensures rootIsDir ==> forall id :: id in services <==> Declared(headers, id)
    ensures rootIsDir ==> forall id, p :: id in services ==> (p in services[id] <==> Belongs(t, headers, id, p))
  {
    services := map[];
    if rootIsDir {
      for i := 0 to |headers|
        invariant forall id :: id in services <==> Declared(headers[..i], id)
        invariant forall id, p :: id in services ==> (p in services[id] <==> Belongs(t, headers[..i], id, p))
      {
        var h := headers[i];
        assert headers[..i + 1] == headers[..i] + [h];
        if h.id.Some? {
          var id := h.id.value;
          var closure := Closure(t, h.path);
          ghost var were := services;
          services := services[id := if id in services then services[id] + closure else closure];
          forall p ensures p in services[id] <==> Belongs(t, headers[..i + 1], id, p) {
            BelongsMore(t, headers[..i], h, id, p);
            assert id !in were ==> !Belongs(t, headers[..i], id, p) by {
              if Belongs(t, headers[..i], id, p) {
                assert Declared(headers[..i], id);
              }
            }
          }
        }
        forall id, p | h.id != Some(id) ensures Belongs(t, headers[..i + 1], id, p) == Belongs(t, headers[..i], id, p) {
          BelongsMore(t, headers[..i], h, id, p);
        }
      }
      assert headers[..|headers|] == headers;
    }
  }

  lemma BelongsMore(t: Tree, headers: seq<Header>, h: Header, id: string, p: Path)
    ensures Belongs(t, headers + [h], id, p) <==>
            Belongs(t, headers, id, p) || (h.id == Some(id) && Reaches(t, h.path, p))
  {
    if Belongs(t, headers, id, p) {
      var g :| g in headers && g.id == Some(id) && Reaches(t, g.path, p);
      assert g in headers + [h];
    }
  }
}
