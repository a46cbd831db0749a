/**
 The dev-dependency check of tools/scripts/check_release_config.py.

 The script builds the normal-dependency graph of the publishable crates, collects with an
 explicit stack what must be published before each crate, and reports every versioned
 dev-dependency on a publishable crate outside that set. The claim behind it is about publish
 orders, which the script never builds: they are sequences of all publishable crates in which
 every crate comes after its normal dependencies.
 */
module PublishOrder {
  import opened Common
  import opened Ordering

  // ----- Manifests ----------------------------------------------------------------------------

  /** A dependency entry: a bare version string or a table with the keys the script reads. */
  datatype Spec =
    | Bare
    | Table(workspace: bool, package: Option<string>, version: bool)

  /** One dependency table; `None` stands for a missing key or a value that is not a table. */
  type Deps = Option<seq<(string, Spec)>>

  datatype DepTables = DepTables(normal: Deps, build: Deps, dev: Deps)

  /** The tables of a manifest and of its `target` sections (the ones that are tables). */
  datatype Manifest = Manifest(top: DepTables, targets: seq<(string, DepTables)>)

  datatype Crate = Crate(publishable: bool, manifest: Manifest)

  datatype Kind = Normal | Build | Dev

  function TableOf(t: DepTables, kind: Kind): Deps {
    match kind
    case Normal => t.normal
    case Build => t.build
    case Dev => t.dev
  }

  function EntriesOf(d: Deps): seq<(string, Spec)> {
    match d
    case None => []
    case Some(entries) => entries
  }

  /** One dependency entry: the label of its table, its key and its specification. */
  datatype Entry = Entry(table: string, alias: string, spec: Spec)

  function TableName(kind: Kind): string {
    match kind
    case Normal => "dependencies"
    case Build => "build-dependencies"
    case Dev => "dev-dependencies"
  }

  function Labelled(table: string, entries: seq<(string, Spec)>): seq<Entry> {
    seq(|entries|, i requires 0 <= i < |entries| => Entry(table, entries[i].0, entries[i].1))
  }

  /** All entries of the tables of the given kinds, the manifest's own first, then each target's. */
  function IterDeps(containers: seq<(string, DepTables)>, kinds: seq<Kind>): seq<Entry> {
    if containers == [] then []
    else EntriesOfKinds(containers[0].0, containers[0].1, kinds) + IterDeps(containers[1..], kinds)
  }

  function EntriesOfKinds(prefix: string, t: DepTables, kinds: seq<Kind>): seq<Entry> {
    if kinds == [] then []
    else Labelled(prefix + TableName(kinds[0]), EntriesOf(TableOf(t, kinds[0]))) + EntriesOfKinds(prefix, t, kinds[1..])
  }

  /** The tables of a manifest with the prefixes of their labels. */
  function Containers(m: Manifest): seq<(string, DepTables)> {
    [("", m.top)] + seq(|m.targets|, i requires 0 <= i < |m.targets| => ("target." + m.targets[i].0 + ".", m.targets[i].1))
  }

  /** The crate a dependency entry names, and whether the entry carries a version. */
  function ResolveDep(alias: string, spec: Spec, shared: map<string, Spec>): (string, bool) {
    match spec
    case Bare => (alias, true)
    case Table(true, _, _) =>
      if alias in shared && shared[alias].Table? then
        (NameOr(shared[alias].package, alias), shared[alias].version)
      else (alias, true)
    case Table(false, package, version) => (NameOr(package, alias), version)
  }

  function NameOr(package: Option<string>, alias: string): string {
    match package
    case None => alias
    case Some(name) => name
  }

  // ----- Dependency graphs and publish orders ---------------------------------------------------

  type Graph = map<string, set<string>>

  /** Every edge ends at a node and no crate is its own direct dependency. */
  ghost predicate WellFormed(g: Graph) {
    forall n, d :: n in g && d in g[n] ==> d in g && d != n
  }

  /** `path` walks edges from `a` to `b`, with at least one edge. */
  ghost predicate IsPath(g: Graph, a: string, path: seq<string>, b: string)
    decreases |path|
  {
    && a in g
    && path != []
    && path[0] in g[a]
    && if |path| == 1 then path[0] == b else IsPath(g, path[0], path[1..], b)
  }

  /** `b` is a transitive normal dependency of `a`. */
  ghost predicate Reaches(g: Graph, a: string, b: string) {
    exists path :: IsPath(g, a, path, b)
  }

  ghost predicate Acyclic(g: Graph) {
    forall n :: n in g ==> !Reaches(g, n, n)
  }

  /** `order` lists the crates of `s` once each, every crate after its normal dependencies. */
  ghost predicate IsOrderOf(g: Graph, s: set<string>, order: seq<string>) {
    && (forall n :: n in order <==> n in s)
    && Distinct(order)
    && (forall i, j :: 0 <= i < |order| && 0 <= j < |order| && order[i] in g && order[j] in g[order[i]] ==> j < i)
  }

  ghost predicate IsPublishOrder(g: Graph, order: seq<string>) {
    IsOrderOf(g, g.Keys, order)
  }

  /** Some occurrence of `a` comes before some occurrence of `b`. */
  ghost predicate Precedes(order: seq<string>, a: string, b: string) {
    exists i, j :: 0 <= i < j < |order| && order[i] == a && order[j] == b
  }

  lemma EdgeReaches(g: Graph, a: string, b: string)
    requires a in g && b in g[a]
    ensures Reaches(g, a, b)
  {
    assert IsPath(g, a, [b], b);
  }

  lemma EdgeThenReaches(g: Graph, a: string, b: string, c: string)
    requires a in g && b in g[a] && Reaches(g, b, c)
    ensures Reaches(g, a, c)
  {
    var path :| IsPath(g, b, path, c);
    assert ([b] + path)[1..] == path;
    assert IsPath(g, a, [b] + path, c);
  }

  lemma {:induction false} PathThenPath(g: Graph, a: string, p: seq<string>, b: string, c: string)
    requires IsPath(g, a, p, b) && Reaches(g, b, c)
    ensures Reaches(g, a, c)
    decreases |p|
  {
    if |p| > 1 {
      PathThenPath(g, p[0], p[1..], b, c);
    }
    EdgeThenReaches(g, a, p[0], c);
  }

  lemma ReachesTransitive(g: Graph, a: string, b: string, c: string)
    requires Reaches(g, a, b) && Reaches(g, b, c)
    ensures Reaches(g, a, c)
  {
    var p :| IsPath(g, a, p, b);
    PathThenPath(g, a, p, b, c);
  }

  lemma {:induction false} PathStaysInGraph(g: Graph, a: string, p: seq<string>, b: string)
    requires WellFormed(g) && IsPath(g, a, p, b)
    ensures b in g
    decreases |p|
  {
    if |p| > 1 {
      PathStaysInGraph(g, p[0], p[1..], b);
    }
  }

  ghost function Reach(g: Graph, a: string): set<string> {
    set b | b in g && Reaches(g, a, b)
  }

  lemma ReachComplete(g: Graph, a: string, b: string)
    requires WellFormed(g) && Reaches(g, a, b)
    ensures b in Reach(g, a)
  {
    var p :| IsPath(g, a, p, b);
    PathStaysInGraph(g, a, p, b);
  }

  // ----- The stack loop ---------------------------------------------------------------------------

  /** A set that has all direct dependencies of `a` and of its own members contains all it reaches. */
  lemma {:induction false} ClosedContainsPath(g: Graph, a: string, s: set<string>, p: seq<string>, b: string)
    requires a in g && g[a] <= s
    requires forall n :: n in s && n in g ==> g[n] <= s
    requires IsPath(g, a, p, b)
    ensures b in s
    decreases |p|
  {
    if |p| > 1 {
      ClosedContainsPath(g, p[0], s, p[1..], b);
    }
  }

  /** The stack loop collects exactly the transitive dependencies of `name`, in whatever order sets are
      iterated. */
  method PublishedFirst(g: Graph, name: string) returns (first: set<string>)
    requires WellFormed(g) && name in g
    ensures first == Reach(g, name)
  {
    first := {};
    var stack := [name];
    ghost var expanded: set<string> := {};
    while stack != []
      invariant forall n :: n in stack ==> n in g && (n == name || n in first)
      invariant first <= Reach(g, name)
      invariant expanded <= g.Keys
      invariant forall n :: n in first || n == name ==> n in stack || n in expanded
      invariant forall n :: n in expanded ==> n in g && g[n] <= first
      decreases g.Keys - first, |stack|
    {
      var top := stack[|stack| - 1];
      stack := stack[..|stack| - 1];
      ghost var first0, stack0 := first, stack;
      var todo := g[top];
      while todo != {}
        invariant todo <= g[top] && g[top] - todo <= first
        invariant first0 <= first <= Reach(g, name)
        invariant forall n :: n in stack ==> n in g && (n == name || n in first)
        invariant forall n :: n in first || n == name ==> n in stack || n in expanded || n == top
        invariant first == first0 ==> stack == stack0
        decreases todo
      {
        var dep :| dep in todo;
        todo := todo - {dep};
        if dep !in first {
          StepReaches(g, name, top, dep);
          first := first + {dep};
          stack := stack + [dep];
        }
      }
      expanded := expanded + {top};
    }
    forall b | b in Reach(g, name)
      ensures b in first
    {
      var p :| IsPath(g, name, p, b);
      ClosedContainsPath(g, name, first, p, b);
    }
  }

  /** A dependency of the start, or of something the start reaches, is reached. */
  lemma StepReaches(g: Graph, name: string, top: string, dep: string)
    requires WellFormed(g) && name in g && top in g && dep in g[top]
    requires top == name || Reaches(g, name, top)
    ensures dep in Reach(g, name)
  {
    EdgeReaches(g, top, dep);
    if top != name {
      ReachesTransitive(g, name, top, dep);
    }
    ReachComplete(g, name, dep);
  }

  // ----- Publish orders of acyclic graphs -----------------------------------------------------

  /** Membership in `s` carries over to all dependencies. */
  ghost predicate Closed(g: Graph, s: set<string>) {
    s <= g.Keys && forall n :: n in s ==> g[n] <= s
  }

  /** On an acyclic graph a dependency reaches strictly fewer crates than its dependant. */
  lemma DependencyReachesLess(g: Graph, a: string, b: string)
    requires WellFormed(g) && Acyclic(g) && a in g && b in g[a]
    ensures Reach(g, b) < Reach(g, a) && |Reach(g, b)| < |Reach(g, a)|
  {
    EdgeReaches(g, a, b);
    ReachComplete(g, a, b);
    forall c | c in Reach(g, b)
      ensures c in Reach(g, a)
    {
      EdgeThenReaches(g, a, b, c);
    }
    assert b in Reach(g, a) && b !in Reach(g, b);
    Smaller(Reach(g, b), Reach(g, a));
  }

  lemma {:induction false} Smaller<T>(a: set<T>, b: set<T>)
    requires a < b
    ensures |a| < |b|
  {
    var x :| x in b && x !in a;
    if a != {} {
      var y :| y in a;
      Smaller(a - {y}, b - {y});
    }
  }

  /** A crate of `s` that reaches the most. */
  lemma {:induction false} Deepest(g: Graph, s: set<string>) returns (top: string)
    requires s != {}
    ensures top in s && forall n :: n in s ==> |Reach(g, n)| <= |Reach(g, top)|
    decreases |s|
  {
    top :| top in s;
    if s != {top} {
      var other := Deepest(g, s - {top});
      if |Reach(g, top)| < |Reach(g, other)| {
        top := other;
      }
    }
  }

  /** An order of a closed set extends to an order of any larger closed set. */
  lemma {:induction false} Extend(g: Graph, p: set<string>, base: seq<string>, s: set<string>)
    returns (order: seq<string>)
    requires WellFormed(g) && Acyclic(g)
    requires Closed(g, p) && Closed(g, s) && p <= s && IsOrderOf(g, p, base)
    ensures IsOrderOf(g, s, order) && base <= order
    decreases |s|
  {
    if s - p == {} {
      assert s == p;
      order := base;
    } else {
      var top := Deepest(g, s - p);
      forall n | n in s && top in g[n]
        ensures false
      {
        DependencyReachesLess(g, n, top);
      }
      var front := Extend(g, p, base, s - {top});
      order := front + [top];
    }
  }

  /** There is a publish order exactly when no crate is its own transitive dependency. */
  lemma OrderExistsIffAcyclic(g: Graph)
    requires WellFormed(g)
    ensures (exists order :: IsPublishOrder(g, order)) <==> Acyclic(g)
  {
    if Acyclic(g) {
      var order := Extend(g, {}, [], g.Keys);
      assert IsPublishOrder(g, order);
    }
    forall order, n | IsPublishOrder(g, order) && n in g
      ensures !Reaches(g, n, n)
    {
      if Reaches(g, n, n) {
        DependencyFirst(g, order, n, n);
      }
    }
  }

  lemma {:induction false} PathFirst(g: Graph, order: seq<string>, a: string, p: seq<string>, b: string, i: nat)
    returns (j: nat)
    requires WellFormed(g) && IsPublishOrder(g, order) && IsPath(g, a, p, b)
    requires i < |order| && order[i] == a
    ensures j < i && order[j] == b
    decreases |p|
  {
    assert p[0] in order;
    j :| 0 <= j < |order| && order[j] == p[0];
    if |p| > 1 {
      j := PathFirst(g, order, p[0], p[1..], b, j);
    }
  }

  /** Soundness: every publish order puts a transitive dependency before its dependant. */
  lemma DependencyFirst(g: Graph, order: seq<string>, name: string, dep: string)
    requires WellFormed(g) && IsPublishOrder(g, order) && name in g && Reaches(g, name, dep)
    ensures Precedes(order, dep, name) && dep != name
  {
    assert name in order;
    var i :| 0 <= i < |order| && order[i] == name;
    var p :| IsPath(g, name, p, dep);
    var j := PathFirst(g, order, name, p, dep, i);
  }

  /** The transitive dependencies of a crate are closed, and so they are with the crate itself. */
  lemma BelowIsClosed(g: Graph, name: string)
    requires WellFormed(g) && name in g
    ensures Closed(g, Reach(g, name)) && Closed(g, Reach(g, name) + {name})
  {
    forall n, d | (n == name || n in Reach(g, name)) && d in g[n]
      ensures d in Reach(g, name)
    {
      StepReaches(g, name, n, d);
    }
  }

  lemma AppendCrate(g: Graph, s: set<string>, order: seq<string>, name: string)
    requires WellFormed(g) && Closed(g, s) && IsOrderOf(g, s, order) && name in g && name !in s
    requires g[name] <= s
    ensures IsOrderOf(g, s + {name}, order + [name])
  {
  }

  /** Completeness: a crate outside the transitive dependencies can be published too late. */
  lemma LateOrder(g: Graph, name: string, dep: string) returns (order: seq<string>)
    requires WellFormed(g) && Acyclic(g) && name in g && dep in g && dep !in Reach(g, name)
    ensures IsPublishOrder(g, order) && !Precedes(order, dep, name)
  {
    var below := Reach(g, name);
    BelowIsClosed(g, name);
    var first := Extend(g, {}, [], below);
    AppendCrate(g, below, first, name);
    var base := first + [name];
    order := Extend(g, below + {name}, base, g.Keys);
    LateIsNotEarly(order, first, name, dep);
  }

  lemma LateIsNotEarly(order: seq<string>, first: seq<string>, name: string, dep: string)
    requires Distinct(order) && first + [name] <= order && dep !in first
    ensures !Precedes(order, dep, name)
  {
    var base := first + [name];
    assert forall i :: 0 <= i < |first| ==> order[i] == base[i] && base[i] in first;
    assert order[|first|] == base[|first|] == name;
  }

  // ----- check_release_config.py ---------------------------------------------------------------

  type Workspace = map<string, Crate>

  predicate Publishable(ws: Workspace, name: string) {
    name in ws && ws[name].publishable
  }

  /** Some entry resolves to `dep`. */
  predicate Names(entries: seq<Entry>, shared: map<string, Spec>, dep: string) {
    exists i :: 0 <= i < |entries| && ResolveDep(entries[i].alias, entries[i].spec, shared).0 == dep
  }

  function NormalEntries(c: Crate): seq<Entry> {
    IterDeps(Containers(c.manifest), [Normal, Build])
  }

  function DevEntries(c: Crate): seq<Entry> {
    IterDeps(Containers(c.manifest), [Dev])
  }

  /** The publishable crates other than `n` that a normal or build dependency of `n` names. */
  ghost function DepsOf(ws: Workspace, shared: map<string, Spec>, n: string): set<string>
    requires n in ws
  {
    set d | d in ws && ws[d].publishable && d != n && Names(NormalEntries(ws[n]), shared, d)
  }

  /** The normal-dependency graph: publishable crates, and their normal and build dependencies on
      other publishable crates, versioned or not. */
  ghost function NormalGraph(ws: Workspace, shared: map<string, Spec>): (g: Graph)
    ensures WellFormed(g)
  {
    map n | n in ws && ws[n].publishable :: DepsOf(ws, shared, n)
  }

  method DirectDeps(name: string, entries: seq<Entry>, nodes: set<string>, shared: map<string, Spec>)
    returns (deps: set<string>)
    ensures forall d :: d in deps <==> d in nodes && d != name && Names(entries, shared, d)
  {
    deps := {};
    for i := 0 to |entries|
      invariant forall d :: d in deps <==> d in nodes && d != name && Names(entries[..i], shared, d)
    {
      var dep := ResolveDep(entries[i].alias, entries[i].spec, shared).0;
      assert entries[..i + 1] == entries[..i] + [entries[i]];
      NamesSnoc(entries[..i], entries[i], shared);
      if dep in nodes && dep != name {
        deps := deps + {dep};
      }
    }
    assert entries[..|entries|] == entries;
  }

  lemma NamesSnoc(entries: seq<Entry>, e: Entry, shared: map<string, Spec>)
    ensures forall d :: Names(entries + [e], shared, d)
                        <==> Names(entries, shared, d) || d == ResolveDep(e.alias, e.spec, shared).0
  {
    var all := entries + [e];
    assert all[|entries|] == e;
    forall d
      ensures Names(all, shared, d) <==> Names(entries, shared, d) || d == ResolveDep(e.alias, e.spec, shared).0
    {
      if Names(entries, shared, d) {
        var i :| 0 <= i < |entries| && ResolveDep(entries[i].alias, entries[i].spec, shared).0 == d;
        assert all[i] == entries[i];
      }
    }
  }

  method NormalDepGraph(ws: Workspace, shared: map<string, Spec>) returns (edges: Graph)
    ensures edges == NormalGraph(ws, shared)
  {
    var nodes := set n | n in ws && ws[n].publishable;
    edges := map n | n in nodes :: {};
    var rest := nodes;
    while rest != {}
      invariant rest <= nodes && edges.Keys == nodes
      invariant forall n :: n in nodes && n !in rest ==> edges[n] == DepsOf(ws, shared, n)
      decreases rest
    {
      var name :| name in rest;
      var deps := DirectDeps(name, NormalEntries(ws[name]), nodes, shared);
      assert deps == DepsOf(ws, shared, name);
      edges := edges[name := deps];
      rest := rest - {name};
    }
  }

  /** One reported dev-dependency: the crate, the label of the table, the key, and the crate the key names. */
  datatype Problem = Problem(name: string, table: string, alias: string, dep: string)

  /** The entry is a versioned dependency on `p.dep`. */
  predicate Versioned(e: Entry, shared: map<string, Spec>, p: Problem) {
    e.table == p.table && e.alias == p.alias && ResolveDep(e.alias, e.spec, shared) == (p.dep, true)
  }

  predicate VersionedDevDep(ws: Workspace, shared: map<string, Spec>, p: Problem) {
    && Publishable(ws, p.name)
    && Publishable(ws, p.dep)
    && exists i :: 0 <= i < |DevEntries(ws[p.name])| && Versioned(DevEntries(ws[p.name])[i], shared, p)
  }

  // ----- The report by the form of manifest entries -----------------------------------------------------

  predicate InTable(d: Deps, alias: string, spec: Spec) {
    d.Some? && (alias, spec) in d.value
  }

  /** A dev-dependency entry of the manifest, in the table with this label. */
  ghost predicate HasDev(m: Manifest, table: string, alias: string, spec: Spec) {
    || (table == "dev-dependencies" && InTable(m.top.dev, alias, spec))
    || exists i :: 0 <= i < |m.targets| && table == "target." + m.targets[i].0 + ".dev-dependencies"
                   && InTable(m.targets[i].1.dev, alias, spec)
  }

  /** A normal or build dependency entry of the manifest, in any table. */
  ghost predicate HasNormal(m: Manifest, alias: string, spec: Spec) {
    || InTable(m.top.normal, alias, spec) || InTable(m.top.build, alias, spec)
    || exists i :: 0 <= i < |m.targets| && (|| InTable(m.targets[i].1.normal, alias, spec)
                                            || InTable(m.targets[i].1.build, alias, spec))
  }

  predicate PackageIs(spec: Spec, alias: string, dep: string)
    requires spec.Table?
  {
    spec.package == Some(dep) || (spec.package == None && dep == alias)
  }

  /** The entry names `dep`: by its key, by its own package key, or by that of the shared table. */
  predicate NamesCrate(alias: string, spec: Spec, shared: map<string, Spec>, dep: string) {
    || (spec.Bare? && dep == alias)
    || (spec.Table? && !spec.workspace && PackageIs(spec, alias, dep))
    || (spec.Table? && spec.workspace && alias in shared && shared[alias].Table? && PackageIs(shared[alias], alias, dep))
    || (spec.Table? && spec.workspace && !(alias in shared && shared[alias].Table?) && dep == alias)
  }

  /** The entry carries a version: it is bare, or has one itself, or in the shared table, which may be bare. */
  predicate HasVersion(alias: string, spec: Spec, shared: map<string, Spec>) {
    || spec.Bare?
    || (!spec.workspace && spec.version)
    || (spec.workspace && (alias in shared && shared[alias].Table? ==> shared[alias].version))
  }

  lemma ResolveDepIs(alias: string, spec: Spec, shared: map<string, Spec>, dep: string)
    ensures ResolveDep(alias, spec, shared).0 == dep <==> NamesCrate(alias, spec, shared, dep)
    ensures ResolveDep(alias, spec, shared).1 <==> HasVersion(alias, spec, shared)
  {
  }

  lemma {:induction false} InEntriesOfKinds(prefix: string, t: DepTables, kinds: seq<Kind>, e: Entry)
    ensures e in EntriesOfKinds(prefix, t, kinds)
            <==> exists k :: k in kinds && e.table == prefix + TableName(k) && InTable(TableOf(t, k), e.alias, e.spec)
  {
    if kinds != [] {
      var entries := EntriesOf(TableOf(t, kinds[0]));
      var first := Labelled(prefix + TableName(kinds[0]), entries);
      InEntriesOfKinds(prefix, t, kinds[1..], e);
      if e in first {
        var i :| 0 <= i < |first| && first[i] == e;
        assert entries[i] == (e.alias, e.spec);
      }
      if InTable(TableOf(t, kinds[0]), e.alias, e.spec) && e.table == prefix + TableName(kinds[0]) {
        var i :| 0 <= i < |entries| && entries[i] == (e.alias, e.spec);
        assert first[i] == e;
      }
    }
  }

  /** One of the tables with this prefix, of one of the kinds, has the entry. */
  ghost predicate InContainer(prefix: string, t: DepTables, kinds: seq<Kind>, e: Entry) {
    exists k :: k in kinds && e.table == prefix + TableName(k) && InTable(TableOf(t, k), e.alias, e.spec)
  }

  lemma {:induction false} InIterDeps(containers: seq<(string, DepTables)>, kinds: seq<Kind>, e: Entry)
    ensures e in IterDeps(containers, kinds)
            <==> exists i :: 0 <= i < |containers| && InContainer(containers[i].0, containers[i].1, kinds, e)
  {
    if containers != [] {
      InEntriesOfKinds(containers[0].0, containers[0].1, kinds, e);
      InIterDeps(containers[1..], kinds, e);
      if i :| 0 <= i < |containers[1..]| && InContainer(containers[1..][i].0, containers[1..][i].1, kinds, e) {
        assert containers[i + 1] == containers[1..][i];
      }
      if i :| 0 <= i < |containers| && InContainer(containers[i].0, containers[i].1, kinds, e) && i > 0 {
        assert containers[i] == containers[1..][i - 1];
      }
    }
  }

  /** A manifest's own tables, or those of one of its targets. */
  lemma InManifest(m: Manifest, kinds: seq<Kind>, e: Entry)
    ensures e in IterDeps(Containers(m), kinds)
            <==> || InContainer("", m.top, kinds, e)
                 || exists i :: 0 <= i < |m.targets| && InContainer("target." + m.targets[i].0 + ".", m.targets[i].1, kinds, e)
  {
    var cs := Containers(m);
    InIterDeps(cs, kinds, e);
    if i :| 0 <= i < |cs| && InContainer(cs[i].0, cs[i].1, kinds, e) && i > 0 {
      assert cs[i] == ("target." + m.targets[i - 1].0 + ".", m.targets[i - 1].1);
    }
    if i :| 0 <= i < |m.targets| && InContainer("target." + m.targets[i].0 + ".", m.targets[i].1, kinds, e) {
      assert cs[i + 1] == ("target." + m.targets[i].0 + ".", m.targets[i].1);
    }
  }

  lemma DevEntriesAre(c: Crate, e: Entry)
    ensures e in DevEntries(c) <==> HasDev(c.manifest, e.table, e.alias, e.spec)
  {
    hide InContainer;
    var m := c.manifest;
    InManifest(m, [Dev], e);
    OwnDev(m.top, e);
    forall i | 0 <= i < |m.targets|
      ensures InContainer("target." + m.targets[i].0 + ".", m.targets[i].1, [Dev], e)
              <==> && e.table == "target." + m.targets[i].0 + ".dev-dependencies"
                   && InTable(m.targets[i].1.dev, e.alias, e.spec)
    {
      TargetDev(m.targets[i].0, m.targets[i].1, e);
    }
  }

  lemma OwnDev(t: DepTables, e: Entry)
    ensures InContainer("", t, [Dev], e) <==> e.table == "dev-dependencies" && InTable(t.dev, e.alias, e.spec)
  {
    OneKind("", t, e);
    DevLabels("");
  }

  lemma TargetDev(cfg: string, t: DepTables, e: Entry)
    ensures InContainer("target." + cfg + ".", t, [Dev], e)
            <==> e.table == "target." + cfg + ".dev-dependencies" && InTable(t.dev, e.alias, e.spec)
  {
    OneKind("target." + cfg + ".", t, e);
    DevLabels(cfg);
  }

  lemma OneKind(prefix: string, t: DepTables, e: Entry)
    ensures InContainer(prefix, t, [Dev], e)
            <==> e.table == prefix + "dev-dependencies" && InTable(t.dev, e.alias, e.spec)
  {
    assert Dev in [Dev];
  }

  /** Entries stand in the order of the manifest: its own table first, then those of the targets, one by one. */
  lemma DevEntriesInOrder(c: Crate, target: (string, DepTables))
    ensures c.manifest.targets == [] ==> DevEntries(c) == Labelled("dev-dependencies", EntriesOf(c.manifest.top.dev))
    ensures var more := c.(manifest := c.manifest.(targets := c.manifest.targets + [target]));
            DevEntries(more) == DevEntries(c) + Labelled("target." + target.0 + ".dev-dependencies", EntriesOf(target.1.dev))
  {
    var cs := Containers(c.manifest);
    var more := Containers(c.manifest.(targets := c.manifest.targets + [target]));
    var prefix := "target." + target.0 + ".";
    assert more == cs + [(prefix, target.1)];
    IterDepsAppend(cs, [(prefix, target.1)], [Dev]);
    OneTable(prefix, target.1);
    OneTable("", c.manifest.top);
    DevLabels(target.0);
    assert c.manifest.targets == [] ==> cs == [("", c.manifest.top)];
  }

  lemma DevLabels(cfg: string)
    ensures "target." + cfg + "." + "dev-dependencies" == "target." + cfg + ".dev-dependencies"
    ensures "" + "dev-dependencies" == "dev-dependencies"
  {
    AppendAssoc("target." + cfg, ".", "dev-dependencies");
    assert "." + "dev-dependencies" == ".dev-dependencies";
  }

  lemma {:induction false} IterDepsAppend(a: seq<(string, DepTables)>, b: seq<(string, DepTables)>, kinds: seq<Kind>)
    ensures IterDeps(a + b, kinds) == IterDeps(a, kinds) + IterDeps(b, kinds)
  {
    hide EntriesOfKinds;
    if a == [] {
      assert a + b == b;
    } else {
      IterDepsAppend(a[1..], b, kinds);
      assert (a + b)[1..] == a[1..] + b;
      AppendAssoc(EntriesOfKinds(a[0].0, a[0].1, kinds), IterDeps(a[1..], kinds), IterDeps(b, kinds));
    }
  }

  lemma OneTable(prefix: string, t: DepTables)
    ensures IterDeps([(prefix, t)], [Dev]) == Labelled(prefix + "dev-dependencies", EntriesOf(t.dev))
  {
    var one := [(prefix, t)];
    assert one[1..] == [] && [Dev][1..] == [];
    assert EntriesOfKinds(prefix, t, []) == [];
  }

  lemma NormalEntriesAre(c: Crate, alias: string, spec: Spec)
    ensures (exists table :: Entry(table, alias, spec) in NormalEntries(c)) <==> HasNormal(c.manifest, alias, spec)
  {
    var m := c.manifest;
    forall table
      ensures Entry(table, alias, spec) in NormalEntries(c) ==> HasNormal(m, alias, spec)
    {
      InManifest(m, [Normal, Build], Entry(table, alias, spec));
    }
    if HasNormal(m, alias, spec) {
      var table := WhichTable(m, alias, spec);
      InManifest(m, [Normal, Build], Entry(table, alias, spec));
    }
  }

  lemma WhichTable(m: Manifest, alias: string, spec: Spec) returns (table: string)
    requires HasNormal(m, alias, spec)
    ensures var e := Entry(table, alias, spec);
            || InContainer("", m.top, [Normal, Build], e)
            || exists i :: 0 <= i < |m.targets|
                           && InContainer("target." + m.targets[i].0 + ".", m.targets[i].1, [Normal, Build], e)
  {
    assert Normal in [Normal, Build] && Build in [Normal, Build];
    if InTable(m.top.normal, alias, spec) {
      table := "" + TableName(Normal);
    } else if InTable(m.top.build, alias, spec) {
      table := "" + TableName(Build);
    } else {
      var i :| 0 <= i < |m.targets| && (|| InTable(m.targets[i].1.normal, alias, spec)
                                        || InTable(m.targets[i].1.build, alias, spec));
      var kind := if InTable(m.targets[i].1.normal, alias, spec) then Normal else Build;
      table := "target." + m.targets[i].0 + "." + TableName(kind);
      assert InContainer("target." + m.targets[i].0 + ".", m.targets[i].1, [Normal, Build], Entry(table, alias, spec));
    }
  }

  /** A crate depends on another publishable crate exactly when an entry of its normal or build tables, versioned
      or not, names it. */
  lemma EdgeByForm(ws: Workspace, shared: map<string, Spec>, n: string, d: string)
    requires Publishable(ws, n)
    ensures d in NormalGraph(ws, shared)[n]
            <==> && Publishable(ws, d) && d != n
                 && exists alias, spec :: HasNormal(ws[n].manifest, alias, spec) && NamesCrate(alias, spec, shared, d)
  {
    var entries := NormalEntries(ws[n]);
    if Names(entries, shared, d) {
      var i :| 0 <= i < |entries| && ResolveDep(entries[i].alias, entries[i].spec, shared).0 == d;
      ResolveDepIs(entries[i].alias, entries[i].spec, shared, d);
      assert Entry(entries[i].table, entries[i].alias, entries[i].spec) == entries[i] && entries[i] in entries;
      NormalEntriesAre(ws[n], entries[i].alias, entries[i].spec);
    }
    if alias, spec :| HasNormal(ws[n].manifest, alias, spec) && NamesCrate(alias, spec, shared, d) {
      ResolveDepIs(alias, spec, shared, d);
      NormalEntriesAre(ws[n], alias, spec);
      var table :| Entry(table, alias, spec) in entries;
      var i :| 0 <= i < |entries| && entries[i] == Entry(table, alias, spec);
    }
  }

  /** A dev-dependency entry with this label and key names the crate and carries a version. */
  ghost predicate VersionedByForm(m: Manifest, shared: map<string, Spec>, p: Problem) {
    exists spec :: HasDev(m, p.table, p.alias, spec) && NamesCrate(p.alias, spec, shared, p.dep)
                   && HasVersion(p.alias, spec, shared)
  }

  lemma VersionedIs(ws: Workspace, shared: map<string, Spec>, p: Problem)
    ensures VersionedDevDep(ws, shared, p)
            <==> Publishable(ws, p.name) && Publishable(ws, p.dep) && VersionedByForm(ws[p.name].manifest, shared, p)
  {
    if Publishable(ws, p.name) {
      var entries := DevEntries(ws[p.name]);
      if i :| 0 <= i < |entries| && Versioned(entries[i], shared, p) {
        ResolveDepIs(p.alias, entries[i].spec, shared, p.dep);
        DevEntriesAre(ws[p.name], entries[i]);
        assert entries[i] in entries;
      }
      if spec :| HasDev(ws[p.name].manifest, p.table, p.alias, spec) && NamesCrate(p.alias, spec, shared, p.dep)
                 && HasVersion(p.alias, spec, shared) {
        ResolveDepIs(p.alias, spec, shared, p.dep);
        DevEntriesAre(ws[p.name], Entry(p.table, p.alias, spec));
        var i :| 0 <= i < |entries| && entries[i] == Entry(p.table, p.alias, spec);
        assert Versioned(entries[i], shared, p);
      }
    }
  }

  /** A dev-dependency entry of a publishable crate that names a publishable crate and carries a version, while
      no chain of normal dependencies leads there. */
  ghost predicate IsProblem(ws: Workspace, shared: map<string, Spec>, p: Problem) {
    && Publishable(ws, p.name) && Publishable(ws, p.dep)
    && VersionedByForm(ws[p.name].manifest, shared, p)
    && !Reaches(NormalGraph(ws, shared), p.name, p.dep)
  }

  /** What is reported, said by the form of the manifest entry. */
  lemma ReportedByForm(ws: Workspace, shared: map<string, Spec>, p: Problem)
    ensures Reported(ws, shared, p) <==> IsProblem(ws, shared, p)
  {
    VersionedIs(ws, shared, p);
    if Publishable(ws, p.dep) && Reaches(NormalGraph(ws, shared), p.name, p.dep) {
      ReachComplete(NormalGraph(ws, shared), p.name, p.dep);
    }
  }

  /** What the check is for: in whatever order the crates are published, each versioned
      dev-dependency on a publishable crate is on the registry before the crate that needs it. */
  ghost predicate SafeInEveryOrder(ws: Workspace, shared: map<string, Spec>) {
    forall order, p :: IsPublishOrder(NormalGraph(ws, shared), order) && VersionedDevDep(ws, shared, p)
                       ==> Precedes(order, p.dep, p.name)
  }

  /** Exactly the versioned dev-dependencies outside the crate's transitive normal dependencies. */
  ghost predicate Reported(ws: Workspace, shared: map<string, Spec>, p: Problem) {
    VersionedDevDep(ws, shared, p) && p.dep !in Reach(NormalGraph(ws, shared), p.name)
  }

  /** The problem an entry gives rise to, if any. */
  function ProblemOf(name: string, e: Entry, nodes: set<string>, first: set<string>, shared: map<string, Spec>)
    : seq<Problem>
  {
    var (dep, hasVersion) := ResolveDep(e.alias, e.spec, shared);
    if dep in nodes && hasVersion && dep !in first then [Problem(name, e.table, e.alias, dep)] else []
  }

  /** The problems of the entries, in the order of the entries. */
  function ProblemsOf(name: string, entries: seq<Entry>, nodes: set<string>, first: set<string>,
                      shared: map<string, Spec>): seq<Problem>
  {
    if entries == [] then []
    else ProblemOf(name, entries[0], nodes, first, shared) + ProblemsOf(name, entries[1..], nodes, first, shared)
  }

  lemma {:induction false} InProblemsOf(name: string, entries: seq<Entry>, nodes: set<string>, first: set<string>,
                                        shared: map<string, Spec>, p: Problem)
    ensures p in ProblemsOf(name, entries, nodes, first, shared)
            <==> && p.name == name && p.dep in nodes && p.dep !in first
                 && exists i :: 0 <= i < |entries| && Versioned(entries[i], shared, p)
  {
    if entries != [] {
      InProblemsOf(name, entries[1..], nodes, first, shared, p);
      if i :| 0 <= i < |entries[1..]| && Versioned(entries[1..][i], shared, p) {
        assert entries[i + 1] == entries[1..][i];
      }
      if i :| 0 <= i < |entries| && Versioned(entries[i], shared, p) && i > 0 {
        assert entries[i] == entries[1..][i - 1];
      }
    }
  }

  /** Problems come in the order of the entries, one for each entry that gives rise to one. */
  lemma {:induction false} ProblemsInOrder(name: string, a: seq<Entry>, b: seq<Entry>, nodes: set<string>,
                                           first: set<string>, shared: map<string, Spec>)
    ensures ProblemsOf(name, a + b, nodes, first, shared)
            == ProblemsOf(name, a, nodes, first, shared) + ProblemsOf(name, b, nodes, first, shared)
  {
    if a == [] {
      assert a + b == b;
    } else {
      ProblemsInOrder(name, a[1..], b, nodes, first, shared);
      assert (a + b)[1..] == a[1..] + b;
      AppendAssoc(ProblemOf(name, a[0], nodes, first, shared), ProblemsOf(name, a[1..], nodes, first, shared),
                  ProblemsOf(name, b, nodes, first, shared));
    }
  }

  /** The problems of one crate, given the crates published before it. */
  method DevProblems(name: string, entries: seq<Entry>, nodes: set<string>, first: set<string>,
                     shared: map<string, Spec>)
    returns (problems: seq<Problem>)
    ensures problems == ProblemsOf(name, entries, nodes, first, shared)
  {
    problems := [];
    assert entries[0..] == entries;
    for i := 0 to |entries|
      invariant problems + ProblemsOf(name, entries[i..], nodes, first, shared)
                == ProblemsOf(name, entries, nodes, first, shared)
    {
      var (dep, hasVersion) := ResolveDep(entries[i].alias, entries[i].spec, shared);
      assert entries[i..][1..] == entries[i + 1..];
      AppendAssoc(problems, ProblemOf(name, entries[i], nodes, first, shared),
                  ProblemsOf(name, entries[i + 1..], nodes, first, shared));
      if dep !in nodes || !hasVersion || dep in first {
        assert problems + [] == problems;
        continue;
      }
      problems := problems + [Problem(name, entries[i].table, entries[i].alias, dep)];
    }
  }

  /** The report for one crate: its versioned dev-dependencies outside its transitive normal dependencies, in the
      order of its manifest. */
  ghost function CrateReport(ws: Workspace, shared: map<string, Spec>, name: string): seq<Problem>
    requires name in ws
  {
    var g := NormalGraph(ws, shared);
    ProblemsOf(name, DevEntries(ws[name]), g.Keys, Reach(g, name), shared)
  }

  lemma InCrateReport(ws: Workspace, shared: map<string, Spec>, name: string, p: Problem)
    requires Publishable(ws, name)
    ensures p in CrateReport(ws, shared, name) <==> p.name == name && Reported(ws, shared, p)
  {
    var g := NormalGraph(ws, shared);
    InProblemsOf(name, DevEntries(ws[name]), g.Keys, Reach(g, name), shared, p);
  }

  method CheckCrate(ws: Workspace, shared: map<string, Spec>, edges: Graph, name: string)
    returns (found: seq<Problem>)
    requires edges == NormalGraph(ws, shared) && name in edges
    ensures found == CrateReport(ws, shared, name)
  {
    var first := PublishedFirst(edges, name);
    found := DevProblems(name, DevEntries(ws[name]), edges.Keys, first, shared);
  }

  method SortedNames(keys: set<string>) returns (names: seq<string>)
    ensures forall n :: n in names <==> n in keys
    ensures Distinct(names) && IsSorted(names, StringLe)
  {
    StringLePreorder();
    names := SortedSet(keys, StringLe);
  }

  /** The reports of the crates, one after the other. */
  ghost function Reports(ws: Workspace, shared: map<string, Spec>, names: seq<string>): seq<Problem>
    requires forall i :: 0 <= i < |names| ==> Publishable(ws, names[i])
  {
    if names == [] then []
    else
      assert Publishable(ws, names[|names| - 1]);
      Reports(ws, shared, names[..|names| - 1]) + CrateReport(ws, shared, names[|names| - 1])
  }

  lemma {:induction false} InReports(ws: Workspace, shared: map<string, Spec>, names: seq<string>, p: Problem)
    requires forall i :: 0 <= i < |names| ==> Publishable(ws, names[i])
    ensures p in Reports(ws, shared, names) <==> p.name in names && Reported(ws, shared, p)
  {
    if names != [] {
      var init, last := names[..|names| - 1], names[|names| - 1];
      assert names == init + [last];
      InReports(ws, shared, init, p);
      InCrateReport(ws, shared, last, p);
    }
  }

  /** The publishable crates in ascending order, each once. */
  ghost predicate PublishableSorted(ws: Workspace, names: seq<string>) {
    (forall n :: n in names <==> Publishable(ws, n)) && Distinct(names) && IsSorted(names, StringLe)
  }

  /** There is only one such list, so the report is determined. */
  lemma SortedNamesUnique(ws: Workspace, a: seq<string>, b: seq<string>)
    requires PublishableSorted(ws, a) && PublishableSorted(ws, b)
    ensures a == b
  {
    forall x, y | StringLe(x, y) && StringLe(y, x)
      ensures x == y
    {
      StringLeTotal(x, y);
    }
    AscendingUnique(a, b, StringLe);
  }

  ghost predicate InNameOrder(problems: seq<Problem>) {
    forall i, j :: 0 <= i < j < |problems| ==> StringLe(problems[i].name, problems[j].name)
  }

  lemma JoinInOrder(a: seq<Problem>, b: seq<Problem>, last: string)
    requires InNameOrder(a) && (forall p :: p in a ==> StringLe(p.name, last)) && (forall p :: p in b ==> p.name == last)
    ensures InNameOrder(a + b)
  {
    StringLeTotal(last, last);
    var all := a + b;
    forall i, j | 0 <= i < j < |all|
      ensures StringLe(all[i].name, all[j].name)
    {
      assert i < |a| ==> all[i] in a;
      assert i >= |a| ==> all[i] in b;
      assert j >= |a| ==> all[j] in b;
    }
  }

  lemma {:induction false} ReportsInOrder(ws: Workspace, shared: map<string, Spec>, names: seq<string>)
    requires forall i :: 0 <= i < |names| ==> Publishable(ws, names[i])
    requires IsSorted(names, StringLe)
    ensures InNameOrder(Reports(ws, shared, names))
  {
    hide Reported;
    hide CrateReport;
    if names != [] {
      var init, last := names[..|names| - 1], names[|names| - 1];
      ReportsInOrder(ws, shared, init);
      var a, b := Reports(ws, shared, init), CrateReport(ws, shared, last);
      forall p | p in a
        ensures StringLe(p.name, last)
      {
        InReports(ws, shared, init, p);
        var i :| 0 <= i < |init| && init[i] == p.name;
        assert names[i] == init[i];
      }
      forall p | p in b
        ensures p.name == last
      {
        InCrateReport(ws, shared, last, p);
      }
      JoinInOrder(a, b, last);
    }
  }

  /** The whole report: crate by crate in name order, entry by entry in each crate. */
  method CheckDevDepCycles(ws: Workspace, shared: map<string, Spec>)
    returns (problems: seq<Problem>, ghost names: seq<string>)
    ensures PublishableSorted(ws, names) && problems == Reports(ws, shared, names)
    ensures forall p :: p in problems <==> IsProblem(ws, shared, p)
    ensures InNameOrder(problems)
  {
    hide Reported;
    hide IsProblem;
    hide CrateReport;
    hide Reports;
    hide NormalGraph;
    var edges := NormalDepGraph(ws, shared);
    GraphNodes(ws, shared);
    problems := [];
    var order := SortedNames(edges.Keys);
    names := order;
    assert forall i :: 0 <= i < |order| ==> order[i] in order;
    assert forall i :: 0 <= i < |order| ==> Publishable(ws, order[i]);
    NoReports(ws, shared, order[..0]);
    for k := 0 to |order|
      invariant problems == Reports(ws, shared, order[..k])
    {
      var found := CheckCrate(ws, shared, edges, order[k]);
      TakeSnoc(order, k);
      assert order[..k + 1][..k] == order[..k];
      ReportsSnoc(ws, shared, order[..k + 1]);
      problems := problems + found;
    }
    assert order[..|order|] == order;
    ReportIs(ws, shared, order);
    ReportsInOrder(ws, shared, order);
  }

  lemma GraphNodes(ws: Workspace, shared: map<string, Spec>)
    ensures forall n :: n in NormalGraph(ws, shared) <==> Publishable(ws, n)
  {
  }

  lemma NoReports(ws: Workspace, shared: map<string, Spec>, names: seq<string>)
    requires names == []
    ensures Reports(ws, shared, names) == []
  {
  }

  lemma ReportsSnoc(ws: Workspace, shared: map<string, Spec>, names: seq<string>)
    requires names != [] && forall i :: 0 <= i < |names| ==> Publishable(ws, names[i])
    ensures Publishable(ws, names[|names| - 1])
    ensures Reports(ws, shared, names)
            == Reports(ws, shared, names[..|names| - 1]) + CrateReport(ws, shared, names[|names| - 1])
  {
  }

  lemma ReportIs(ws: Workspace, shared: map<string, Spec>, names: seq<string>)
    requires forall n :: n in names <==> Publishable(ws, n)
    requires forall i :: 0 <= i < |names| ==> Publishable(ws, names[i])
    ensures forall p :: p in Reports(ws, shared, names) <==> IsProblem(ws, shared, p)
  {
    forall p
      ensures p in Reports(ws, shared, names) <==> IsProblem(ws, shared, p)
    {
      InReports(ws, shared, names, p);
      ReportedByForm(ws, shared, p);
    }
  }

  /** Pair by pair, when the crates can be published at all: a versioned dev-dependency is reported
      exactly when some publish order does not publish it before the crate that needs it. */
  lemma ReportedIff(ws: Workspace, shared: map<string, Spec>, p: Problem)
    requires Acyclic(NormalGraph(ws, shared)) && VersionedDevDep(ws, shared, p)
    ensures Reported(ws, shared, p)
            <==> exists order :: IsPublishOrder(NormalGraph(ws, shared), order) && !Precedes(order, p.dep, p.name)
  {
    var g := NormalGraph(ws, shared);
    if Reported(ws, shared, p) {
      var order := LateOrder(g, p.name, p.dep);
      assert IsPublishOrder(g, order) && !Precedes(order, p.dep, p.name);
    } else {
      forall order | IsPublishOrder(g, order)
        ensures Precedes(order, p.dep, p.name)
      {
        DependencyFirst(g, order, p.name, p.dep);
      }
    }
  }

  /** An empty report is safe in every publish order; and when there is a publish order at all, only an
      empty report is. */
  lemma EmptyReportIffSafe(ws: Workspace, shared: map<string, Spec>)
    ensures (forall p :: !Reported(ws, shared, p)) ==> SafeInEveryOrder(ws, shared)
    ensures (exists order :: IsPublishOrder(NormalGraph(ws, shared), order)) && SafeInEveryOrder(ws, shared)
            ==> forall p :: !Reported(ws, shared, p)
  {
    var g := NormalGraph(ws, shared);
    OrderExistsIffAcyclic(g);
    forall order, p | IsPublishOrder(g, order) && VersionedDevDep(ws, shared, p) && !Reported(ws, shared, p)
      ensures Precedes(order, p.dep, p.name)
    {
      DependencyFirst(g, order, p.name, p.dep);
    }
    if Acyclic(g) {
      forall p | Reported(ws, shared, p)
        ensures !SafeInEveryOrder(ws, shared)
      {
        ReportedIff(ws, shared, p);
        assert VersionedDevDep(ws, shared, p);
      }
    }
  }
}
