/** From package metadata to the member dependency graph, and the check that runs over it. */
module WorkspaceGraph {
  import opened Text
  import opened Ordering
  import opened Cycles

  /** A dependency entry; `local` when it names no registry or git source. */
  datatype Dependency = Dependency(name: Option<Bytes>, local: bool)

  datatype Package = Package(id: Option<Bytes>, name: Option<Bytes>, dependencies: seq<Dependency>)

  datatype Metadata = Metadata(workspaceMembers: seq<Bytes>, packages: seq<Package>)

  ghost predicate NamesMember(m: Metadata, p: Package, name: Bytes) {
    p.id.Some? && p.id.value in m.workspaceMembers && p.name == Some(name)
  }

  /** Some package whose id is a workspace member goes by this name. */
  ghost predicate IsMember(m: Metadata, name: Bytes) {
    exists p :: p in m.packages && NamesMember(m, p, name)
  }

  /** The names of the workspace members. */
  function Members(m: Metadata): (names: set<Bytes>)
    ensures forall name :: name in names <==> IsMember(m, name)
  {
    var names := set p | p in m.packages && p.id.Some? && p.id.value in m.workspaceMembers && p.name.Some? :: p.name.value;
    assert forall name :: IsMember(m, name) ==> name in names by {
      forall name | IsMember(m, name)
        ensures name in names
      {
        var p :| p in m.packages && NamesMember(m, p, name);
        assert p.name.value == name;
      }
    }
    names
  }

  /** The last package of a name: a later one replaces the edges of an earlier one. */
  function LastNamed(packages: seq<Package>, name: Bytes): Option<Package> {
    if packages == [] then None
    else if packages[|packages| - 1].name == Some(name) then Some(packages[|packages| - 1])
    else LastNamed(packages[..|packages| - 1], name)
  }

  ghost predicate DeclaresLocally(p: Package, name: Bytes) {
    exists d :: d in p.dependencies && d.local && d.name == Some(name)
  }

  /** `u` depends on `v` inside the workspace. */
  ghost predicate DependsLocally(m: Metadata, packages: seq<Package>, u: Bytes, v: Bytes) {
    && IsMember(m, u) && IsMember(m, v) && u != v
    && LastNamed(packages, u).Some?
    && DeclaresLocally(LastNamed(packages, u).value, v)
  }

  ghost predicate StrictlyAscending(s: seq<Bytes>) {
    forall i, j :: 0 <= i < j < |s| ==> LexLe(s[i], s[j]) && s[i] != s[j]
  }

  /** `Vec::dedup`: drop each entry equal to its predecessor. */
  function Dedup(s: seq<Bytes>): seq<Bytes> {
    if |s| < 2 then s
    else if s[0] == s[1] then Dedup(s[1..])
    else [s[0]] + Dedup(s[1..])
  }

  lemma {:induction false} DedupOfSorted(s: seq<Bytes>)
    requires SortedBy(LexLe, s)
    ensures StrictlyAscending(Dedup(s))
    ensures forall x :: x in Dedup(s) <==> x in s
    ensures s != [] ==> Dedup(s) != [] && Dedup(s)[0] == s[0]
  {
    if |s| >= 2 {
      hide LexLe;
      var t := s[1..];
      DedupOfSorted(t);
      assert s == [s[0]] + t;
      if s[0] != s[1] {
        LexIsTotalOrder();
        var d := Dedup(t);
        forall i | 0 <= i < |d|
          ensures LexLe(s[0], d[i]) && s[0] != d[i]
        {
          assert d[i] in t;
          if i > 0 {
            assert LexLe(d[0], d[i]) && LexLe(s[0], d[0]);
          }
        }
      }
    }
  }

  /** The local member dependencies a package lists, apart from itself. */
  method LocalDependencies(p: Package, members: set<Bytes>, name: Bytes) returns (deps: seq<Bytes>)
    ensures StrictlyAscending(deps)
    ensures forall v :: v in deps <==> DeclaresLocally(p, v) && v in members && v != name
  {
    deps := [];
    for i := 0 to |p.dependencies|
      invariant forall v :: v in deps <==>
        v in members && v != name && exists d :: d in p.dependencies[..i] && d.local && d.name == Some(v)
    {
      var d := p.dependencies[i];
      assert p.dependencies[..i + 1] == p.dependencies[..i] + [d];
      if d.local && d.name.Some? && d.name.value in members && d.name.value != name {
        deps := deps + [d.name.value];
      }
    }
    assert p.dependencies[..|p.dependencies|] == p.dependencies;
    LexIsTotalOrder();
    SortedIsSorted(LexLe, deps);
    DedupOfSorted(Sorted(LexLe, deps));
    forall v
      ensures v in Sorted(LexLe, deps) <==> v in deps
    {
      assert v in Sorted(LexLe, deps) <==> v in multiset(Sorted(LexLe, deps));
      assert v in deps <==> v in multiset(deps);
    }
    deps := Dedup(Sorted(LexLe, deps));
  }

  /** The graph says of every pair of names whether the one depends on the other. */
  ghost predicate Mirrors(m: Metadata, packages: seq<Package>, graph: Graph) {
    && (forall u :: u in graph <==> IsMember(m, u))
    && (forall u :: u in graph ==> StrictlyAscending(graph[u]))
    && (forall u, v :: Edge(graph, u, v) <==> DependsLocally(m, packages, u, v))
  }

  method BuildGraph(m: Metadata) returns (members: set<Bytes>, graph: Graph)
    ensures forall u :: u in members <==> IsMember(m, u)
    ensures Mirrors(m, m.packages, graph)
  {
    members := Members(m);
    graph := map name | name in members :: [];
    for i := 0 to |m.packages|
      invariant Mirrors(m, m.packages[..i], graph)
    {
      var package := m.packages[i];
      ghost var before, read := graph, m.packages[..i];
      assert m.packages[..i + 1] == read + [package];
      if package.name.Some? && package.name.value in members {
        var name := package.name.value;
        var deps := LocalDependencies(package, members, name);
        if name in graph {
          graph := graph[name := deps];
        }
        MirrorsUpdate(m, read, package, before, deps);
      } else {
        MirrorsSkip(m, read, package, graph);
      }
    }
    assert m.packages[..|m.packages|] == m.packages;
  }

  lemma LastNamedSnoc(packages: seq<Package>, p: Package, name: Bytes)
    ensures LastNamed(packages + [p], name) == if p.name == Some(name) then Some(p) else LastNamed(packages, name)
  {
    assert (packages + [p])[..|packages|] == packages;
  }

  lemma MirrorsSkip(m: Metadata, packages: seq<Package>, p: Package, graph: Graph)
    requires Mirrors(m, packages, graph)
    requires p.name.Some? ==> !IsMember(m, p.name.value)
    ensures Mirrors(m, packages + [p], graph)
  {
    forall u, v
      ensures Edge(graph, u, v) <==> DependsLocally(m, packages + [p], u, v)
    {
      LastNamedSnoc(packages, p, u);
      assert Edge(graph, u, v) <==> DependsLocally(m, packages, u, v);
    }
  }

  lemma MirrorsUpdate(m: Metadata, packages: seq<Package>, p: Package, graph: Graph, deps: seq<Bytes>)
    requires Mirrors(m, packages, graph)
    requires p.name.Some? && IsMember(m, p.name.value)
    requires StrictlyAscending(deps)
    requires forall v :: v in deps <==> DeclaresLocally(p, v) && IsMember(m, v) && v != p.name.value
    ensures Mirrors(m, packages + [p], graph[p.name.value := deps])
  {
    var graph' := graph[p.name.value := deps];
    forall u, v
      ensures Edge(graph', u, v) <==> DependsLocally(m, packages + [p], u, v)
    {
      LastNamedSnoc(packages, p, u);
      assert Edge(graph, u, v) <==> DependsLocally(m, packages, u, v);
      if u != p.name.value {
        assert Edge(graph', u, v) <==> Edge(graph, u, v);
      }
    }
  }

  /** A ring of members, each depending on the next: at least two of them, since nothing
      depends on itself. */
  ghost predicate DependencyRing(m: Metadata, c: seq<Bytes>) {
    && |c| >= 3 && c[0] == c[|c| - 1]
    && (forall i :: 0 <= i < |c| - 1 ==> DependsLocally(m, m.packages, c[i], c[i + 1]))
    && Distinct(c[..|c| - 1])
  }

  /** The outcome of the check: the ring it reports, or that there is none to report. */
  method CheckCycles(m: Metadata) returns (report: Option<seq<Bytes>>)
    ensures report == None <==> !exists c :: DependencyRing(m, c)
    ensures report.Some? ==> DependencyRing(m, report.value)
  {
    var members, graph := BuildGraph(m);
    report := FindCycle(graph);
    if report.Some? {
      RingFromCycle(m, graph, report.value);
    } else {
      forall c | DependencyRing(m, c)
        ensures false
      {
        assert Walk(graph, c);
        assert Cycle(graph, c);
      }
    }
  }

  lemma RingFromCycle(m: Metadata, graph: Graph, c: seq<Bytes>)
    requires Mirrors(m, m.packages, graph) && SimpleCycle(graph, c)
    ensures DependencyRing(m, c)
  {
    forall i | 0 <= i < |c| - 1
      ensures DependsLocally(m, m.packages, c[i], c[i + 1])
    {
      assert Edge(graph, c[i], c[i + 1]);
    }
    assert DependsLocally(m, m.packages, c[0], c[0 + 1]);
  }
}
