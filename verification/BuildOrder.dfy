/** The component registry of the build system and its build order, by Kahn's algorithm. */
module BuildOrder {
  datatype Component = Component(name: string, depends: seq<string>)

  // What build_order returns or raises.
  datatype Outcome =
    | Order(names: seq<string>)
    | UnknownDependency(component: string, dependency: string)
    | Circular(remaining: set<string>)

  // ---------------------------------------------------------------- dependency graphs

  predicate Unique(comps: seq<Component>) {
    forall i, j :: 0 <= i < j < |comps| ==> comps[i].name != comps[j].name
  }

  function Names(comps: seq<Component>): set<string> {
    set c | c in comps :: c.name
  }

  predicate DependsOn(comps: seq<Component>, a: string, b: string) {
    exists c :: c in comps && c.name == a && b in c.depends
  }

  predicate Known(comps: seq<Component>) {
    forall c, d | c in comps && d in c.depends :: d in Names(comps)
  }

  // Dependency d of component i is the first, in the order of registration, that nobody registered.
  predicate FirstUnknown(comps: seq<Component>, i: nat, j: nat) {
    && i < |comps| && j < |comps[i].depends| && comps[i].depends[j] !in Names(comps)
    && (forall k, d | 0 <= k < i && d in comps[k].depends :: d in Names(comps))
    && (forall l | 0 <= l < j :: comps[i].depends[l] in Names(comps))
  }

  // Each component depends on the next.
  predicate Path(comps: seq<Component>, p: seq<string>) {
    forall i | 0 <= i < |p| - 1 :: DependsOn(comps, p[i], p[i + 1])
  }

  predicate Cycle(comps: seq<Component>, p: seq<string>) {
    |p| >= 2 && p[0] == p[|p| - 1] && Path(comps, p)
  }

  ghost predicate HasCycle(comps: seq<Component>) {
    exists p :: Cycle(comps, p)
  }

  // A path from n that ends at a component it has passed before.
  predicate Lasso(comps: seq<Component>, n: string, p: seq<string>) {
    p != [] && p[0] == n && Path(comps, p) && p[|p| - 1] in p[..|p| - 1]
  }

  ghost predicate ReachesCycle(comps: seq<Component>, n: string) {
    exists p :: Lasso(comps, n, p)
  }

  predicate NoRepeats(s: seq<string>) {
    forall i, j :: 0 <= i < j < |s| ==> s[i] != s[j]
  }

  // A set of names with each dependency listed before its dependents.
  ghost predicate Sorted(comps: seq<Component>, order: seq<string>) {
    && NoRepeats(order)
    && (forall n | n in order :: n in Names(comps))
    && (forall i, d | 0 <= i < |order| && DependsOn(comps, order[i], d) :: d in order[..i])
  }

  // ---------------------------------------------------------------- orders and cycles

  lemma {:induction false} ListIsNoLonger(s: seq<string>, t: set<string>)
    requires NoRepeats(s) && forall n | n in s :: n in t
    ensures |s| <= |t|
    ensures |s| == |t| ==> forall n | n in t :: n in s
    decreases |s|
  {
    if s == [] {
      assert |t| == 0 ==> t == {};
    } else {
      ListIsNoLonger(s[1..], t - {s[0]});
      assert forall n | n in t :: n == s[0] || n in t - {s[0]};
      assert forall n | n in s[1..] :: n in s;
    }
  }

  lemma {:induction false} NamesAreAsMany(comps: seq<Component>)
    requires Unique(comps)
    ensures |Names(comps)| == |comps|
    decreases |comps|
  {
    if comps == [] {
      assert Names(comps) == {};
    } else {
      var rest := comps[1..];
      NamesAreAsMany(rest);
      assert comps == [comps[0]] + rest;
      assert Names(comps) == {comps[0].name} + Names(rest);
    }
  }

  // Along a path from inside an order, positions only go down.
  lemma {:induction false} PathGoesDown(comps: seq<Component>, order: seq<string>, p: seq<string>, k: nat, i: nat)
    requires Sorted(comps, order) && Path(comps, p) && k < |p| && i < |order| && p[0] == order[i]
    ensures k > 0 ==> p[k] in order[..i]
    ensures p[k] in order
    decreases k
  {
    if k > 0 {
      PathGoesDown(comps, order, p, k - 1, i);
      assert DependsOn(comps, p[k - 1], p[k - 1 + 1]);
      var j :| 0 <= j <= i && order[j] == p[k - 1];
      assert p[k] in order[..j];
    }
  }

  // Nothing in an order reaches a cycle.
  lemma OrderedIsAcyclic(comps: seq<Component>, order: seq<string>, n: string)
    requires Sorted(comps, order) && n in order
    ensures !ReachesCycle(comps, n)
  {
    forall p ensures !Lasso(comps, n, p) {
      if Lasso(comps, n, p) {
        var last := |p| - 1;
        var j :| 0 <= j < last && p[j] == p[last];
        var i :| 0 <= i < |order| && order[i] == n;
        PathGoesDown(comps, order, p, j, i);
        var at :| 0 <= at < |order| && order[at] == p[j];
        var tail := p[j..];
        assert Path(comps, tail) by {
          forall k | 0 <= k < |tail| - 1 ensures DependsOn(comps, tail[k], tail[k + 1]) {
            assert DependsOn(comps, p[j + k], p[j + k + 1]);
          }
        }
        PathGoesDown(comps, order, tail, last - j, at);
      }
    }
  }

  ghost predicate DependsInto(comps: seq<Component>, stuck: set<string>, n: string) {
    exists d :: d in stuck && DependsOn(comps, n, d)
  }

  // Every component in the set waits for another one in it.
  ghost predicate Stuck(comps: seq<Component>, stuck: set<string>) {
    forall n | n in stuck :: DependsInto(comps, stuck, n)
  }

  // Such sets support paths of any length.
  lemma {:induction false} LongPath(comps: seq<Component>, stuck: set<string>, n: string, k: nat)
    returns (p: seq<string>)
    requires n in stuck && Stuck(comps, stuck)
    ensures |p| == k + 1 && p[0] == n && Path(comps, p) && forall m | m in p :: m in stuck
    decreases k
  {
    if k == 0 {
      p := [n];
    } else {
      assert DependsInto(comps, stuck, n);
      var d :| d in stuck && DependsOn(comps, n, d);
      hide DependsInto, DependsOn, Stuck, Path;
      var rest := LongPath(comps, stuck, d, k - 1);
      PathStart(comps, n, rest);
      p := [n] + rest;
    }
  }

  lemma PathStart(comps: seq<Component>, n: string, rest: seq<string>)
    requires rest != [] && DependsOn(comps, n, rest[0]) && Path(comps, rest)
    ensures Path(comps, [n] + rest)
  {
    var p := [n] + rest;
    forall i | 0 <= i < |p| - 1 ensures DependsOn(comps, p[i], p[i + 1]) {
      if i > 0 {
        assert DependsOn(comps, rest[i - 1], rest[i - 1 + 1]);
      }
    }
  }

  lemma PathPrefix(comps: seq<Component>, p: seq<string>, a: nat, b: nat)
    requires Path(comps, p) && a <= b <= |p|
    ensures Path(comps, p[a..b])
  {
    forall i | 0 <= i < b - a - 1 ensures DependsOn(comps, p[a..b][i], p[a..b][i + 1]) {
      assert DependsOn(comps, p[a + i], p[a + i + 1]);
    }
  }

  // All of it reaches a cycle: a path longer than the set passes some name twice.
  lemma StuckReachesCycle(comps: seq<Component>, stuck: set<string>, n: string)
    requires n in stuck && Stuck(comps, stuck)
    ensures ReachesCycle(comps, n)
  {
    hide Stuck, DependsOn;
    var p := LongPath(comps, stuck, n, |stuck|);
    if NoRepeats(p) {
      ListIsNoLonger(p, stuck);
      assert false;
    }
    var i, j :| 0 <= i < j < |p| && p[i] == p[j];
    PathPrefix(comps, p, 0, j + 1);
    var q := p[0..j + 1];
    assert q[j] == p[i] == q[..j][i];
    assert Lasso(comps, n, q);
  }

  lemma CycleInLasso(comps: seq<Component>, n: string)
    requires ReachesCycle(comps, n)
    ensures HasCycle(comps)
  {
    var p :| Lasso(comps, n, p);
    var i :| 0 <= i < |p| - 1 && p[i] == p[|p| - 1];
    PathPrefix(comps, p, i, |p|);
    assert Cycle(comps, p[i..|p|]);
  }

  lemma CycleIsLasso(comps: seq<Component>, p: seq<string>)
    requires Cycle(comps, p)
    ensures p[0] in Names(comps) && ReachesCycle(comps, p[0])
  {
    assert DependsOn(comps, p[0], p[0 + 1]);
    var c :| c in comps && c.name == p[0] && p[1] in c.depends;
    assert p[..|p| - 1][0] == p[0];
    assert Lasso(comps, p[0], p);
  }

  // ---------------------------------------------------------------- in-degrees

  // Entries of a dependency list that are not done.
  function Left(deps: seq<string>, done: set<string>): nat
    decreases |deps|
  {
    if deps == [] then 0 else (if deps[0] in done then 0 else 1) + Left(deps[1..], done)
  }

  // Repeated entries are all settled at once.
  lemma {:induction false} OneMoreDone(deps: seq<string>, done: set<string>, x: string)
    requires x !in done
    ensures Left(deps, done) == Left(deps, done + {x}) + multiset(deps)[x]
    decreases |deps|
  {
    if deps != [] {
      OneMoreDone(deps[1..], done, x);
      assert deps == [deps[0]] + deps[1..];
    }
  }

  lemma {:induction false} NothingLeft(deps: seq<string>, done: set<string>)
    ensures Left(deps, done) == 0 <==> forall d | d in deps :: d in done
    decreases |deps|
  {
    if deps != [] {
      NothingLeft(deps[1..], done);
      assert deps == [deps[0]] + deps[1..];
    }
  }

  lemma {:induction false} AllLeft(deps: seq<string>)
    ensures Left(deps, {}) == |deps|
    decreases |deps|
  {
    if deps != [] {
      AllLeft(deps[1..]);
    }
  }

  ghost function Deps(comps: seq<Component>, n: string): (deps: seq<string>)
    requires Unique(comps) && n in Names(comps)
    ensures forall c | c in comps && c.name == n :: deps == c.depends
    ensures forall d :: d in deps <==> DependsOn(comps, n, d)
  {
    var c :| c in comps && c.name == n;
    c.depends
  }
}

/** component.py. */
module BuildOrderCode {
  import opened BuildOrder

  // The two tables of the algorithm: in_degree and adj.
  datatype Tables = Tables(degree: map<string, int>, adj: map<string, seq<string>>)

  // What the tables say when the dependency lists entered so far are `listed`.
  ghost predicate Reflects(t: Tables, listed: map<string, seq<string>>) {
    && t.degree.Keys == t.adj.Keys == listed.Keys
    && (forall n | n in listed :: t.degree[n] == |listed[n]|)
    && (forall d, n | d in listed && n in t.adj[d] :: n in listed)
    && (forall d, n | d in listed && n in listed :: multiset(t.adj[d])[n] == multiset(listed[n])[d])
  }

  ghost predicate Complete(comps: seq<Component>, t: Tables)
    requires Unique(comps)
  {
    && t.degree.Keys == t.adj.Keys == Names(comps)
    && (forall d, n | d in Names(comps) && n in t.adj[d] :: n in Names(comps))
    && (forall d, n | d in Names(comps) && n in Names(comps) :: multiset(t.adj[d])[n] == multiset(Deps(comps, n))[d])
  }

  // One dependency entry: adj[d].append(n), in_degree[n] += 1.
  lemma OneMoreEntry(t: Tables, listed: map<string, seq<string>>, n: string, d: string)
    requires Reflects(t, listed) && n in listed && d in listed
    ensures n in t.degree && d in t.adj
    ensures Reflects(Tables(t.degree[n := t.degree[n] + 1], t.adj[d := t.adj[d] + [n]]), listed[n := listed[n] + [d]])
  {
  }

  // Each name is settled, waiting in the queue with nothing left to wait for, or still waiting.
  ghost predicate Settled(comps: seq<Component>, degree: map<string, int>, order: seq<string>, queue: seq<string>)
    requires Unique(comps)
  {
    && degree.Keys == Names(comps)
    && NoRepeats(order + queue)
    && (forall n | n in order + queue :: n in Names(comps))
    && (forall n | n in Names(comps) :: n in order + queue <==> degree[n] == 0)
  }

  function Done(order: seq<string>): set<string> {
    set n | n in order
  }

  ghost predicate Waiting(comps: seq<Component>, degree: map<string, int>, order: seq<string>)
    requires Unique(comps) && degree.Keys == Names(comps)
  {
    forall n | n in Names(comps) :: degree[n] == Left(Deps(comps, n), Done(order))
  }

  class ComponentRegistry {
    var components: seq<Component>

    ghost predicate Valid()
      reads this
    {
      Unique(components)
    }

    constructor ()
      ensures Valid() && components == []
    {
      components := [];
    }

    // False for the KeyError of a name registered before.
    method Register(c: Component) returns (ok: bool)
      requires Valid()
      modifies this
      ensures Valid() && (ok <==> c.name !in Names(old(components)))
      ensures components == if ok then old(components) + [c] else old(components)
    {
      ok := c.name !in Names(components);
      if ok {
        forall i | 0 <= i < |components| ensures components[i].name != c.name {
          assert components[i] in components;
        }
        components := components + [c];
      }
    }

    // The loop that looks for a dependency nobody registered.
    method FindUnknown() returns (found: bool, i: nat, j: nat)
      ensures found ==> FirstUnknown(components, i, j)
      ensures !found ==> Known(components)
    {
      i, j := 0, 0;
      while i < |components|
        invariant i <= |components|
        invariant forall k, d | 0 <= k < i && d in components[k].depends :: d in Names(components)
      {
        j := 0;
        while j < |components[i].depends|
          invariant j <= |components[i].depends|
          invariant forall l | 0 <= l < j :: components[i].depends[l] in Names(components)
        {
          if components[i].depends[j] !in Names(components) {
            return true, i, j;
          }
          j := j + 1;
        }
        i := i + 1;
      }
      found := false;
    }

    // in_degree and adj from the dependency lists.
    method CountEdges() returns (t: Tables)
      requires Valid() && Known(components)
      ensures Complete(components, t) && Waiting(components, t.degree, [])
    {
      t := Tables(Zeros(Names(components)), Empties(Names(components)));
      ghost var listed := Empties(Names(components));
      NothingListed(components);
      hide Zeros, Empties;
      var i := 0;
      while i < |components|
        invariant i <= |components| && Reflects(t, listed) && ListedUpTo(components, listed, i)
      {
        hide Reflects, ListedUpTo, Unique;
        CountNext(components, listed, i);
        t, listed := CountEntries(t, components[i], listed);
        i := i + 1;
      }
      AllListed(components, t, listed);
    }

    // The entries of one component.
    method CountEntries(tables: Tables, c: Component, ghost before: map<string, seq<string>>)
      returns (t: Tables, ghost listed: map<string, seq<string>>)
      requires Reflects(tables, before) && c.name in before && before[c.name] == []
      requires forall d | d in c.depends :: d in before
      ensures Reflects(t, listed) && listed == before[c.name := c.depends]
    {
      hide Reflects;
      var n := c.name;
      t := tables;
      listed := before;
      var j := 0;
      while j < |c.depends|
        invariant j <= |c.depends| && Reflects(t, listed) && listed == before[n := c.depends[..j]]
      {
        var d := c.depends[j];
        OneMoreEntry(t, listed, n, d);
        t := t.(adj := t.adj[d := t.adj[d] + [n]]);
        t := t.(degree := t.degree[n := t.degree[n] + 1]);
        assert c.depends[..j + 1] == c.depends[..j] + [d];
        listed := listed[n := listed[n] + [d]];
        j := j + 1;
      }
      assert c.depends[..|c.depends|] == c.depends;
    }

    // The loop over the dependents of a component just built: those with nothing left to wait for
    // enter the queue.
    method Release(t: Tables, degree: map<string, int>, order: seq<string>, name: string, queue: seq<string>)
      returns (degree': map<string, int>, queue': seq<string>)
      requires Valid() && Complete(components, t) && name in Names(components)
      requires Settled(components, degree, order + [name], queue) && Waiting(components, degree, order)
      ensures Settled(components, degree', order + [name], queue') && Waiting(components, degree', order + [name])
    {
      hide Settled, Released, Waiting, Complete, Unique, Names, NoRepeats;
      SettledKeys(components, degree, order + [name], queue);
      WaitingKeys(components, t);
      NotBeforeQueue(components, degree, order, name, queue);
      NoneReleased(components, degree, order);
      degree', queue' := degree, queue;
      var k := 0;
      assert t.adj[name][..0] == [];
      while k < |t.adj[name]|
        invariant k <= |t.adj[name]|
        invariant Settled(components, degree', order + [name], queue')
        invariant Released(components, degree', order, t.adj[name][..k])
      {
        var next := t.adj[name][k];
        CountDown(components, t, degree', order, name, k);
        JoinQueue(components, degree', order + [name], queue', next);
        degree' := degree'[next := degree'[next] - 1];
        if degree'[next] == 0 {
          queue' := queue' + [next];
        }
        k := k + 1;
      }
      assert t.adj[name][..k] == t.adj[name];
      AllReleased(components, t, degree', order, name);
    }

    // The names with no dependencies, in the order of registration.
    method FirstQueue(degree: map<string, int>) returns (queue: seq<string>)
      requires Valid() && degree.Keys == Names(components)
      ensures Settled(components, degree, [], queue)
    {
      queue := [];
      var i := 0;
      while i < |components|
        invariant i <= |components| && QueuedUpTo(components, degree, queue, i)
      {
        hide QueuedUpTo;
        QueueNext(components, degree, queue, i);
        if degree[components[i].name] == 0 {
          queue := queue + [components[i].name];
        }
        i := i + 1;
      }
      AllQueued(components, degree, queue);
    }

    // build_order: an unknown dependency is reported first; the circular error is raised exactly when
    // the graph has a cycle, and names exactly the components that reach one; otherwise every
    // component is listed once, after its dependencies.
    method Build() returns (r: Outcome)
      requires Valid()
      ensures r.UnknownDependency? <==> !Known(components)
      ensures r.UnknownDependency? ==>
                exists i: nat, j: nat :: FirstUnknown(components, i, j)
                                         && r.component == components[i].name
                                          && r.dependency == components[i].depends[j]
      ensures Known(components) ==> (r.Circular? <==> HasCycle(components))
      ensures r.Circular? ==> forall n :: n in r.remaining <==> n in Names(components) && ReachesCycle(components, n)
      ensures r.Order? ==> Sorted(components, r.names) && Done(r.names) == Names(components)
    {
      hide Settled, Waiting, Sorted, Complete, Known, FirstUnknown, HasCycle, ReachesCycle, Done, Unique, Names;
      var found, i, j := FindUnknown();
      if found {
        UnknownIsUnknown(components, i, j);
        return UnknownDependency(components[i].name, components[i].depends[j]);
      }
      var t := CountEdges();
      var degree := t.degree;
      WaitingKeys(components, t);
      var queue := FirstQueue(degree);
      var order := [];
      EmptyIsSorted(components);
      while queue != []
        invariant Settled(components, degree, order, queue)
        invariant degree.Keys == Names(components) && Waiting(components, degree, order)
        invariant Sorted(components, order)
        decreases |components| - |order|
      {
        var name := queue[0];
        TakeFirst(components, degree, order, queue);
        queue := queue[1..];
        order := order + [name];
        degree, queue := Release(t, degree, order[..|order| - 1], name, queue);
        assert order[..|order| - 1] + [name] == order;
        SettledKeys(components, degree, order, queue);
      }
      Finished(components, degree, order);
      if |order| != |components| {
        r := Circular(Names(components) - Done(order));
      } else {
        r := Order(order);
      }
    }
  }

  // The first i components have had their lists entered.
  ghost predicate ListedUpTo(comps: seq<Component>, listed: map<string, seq<string>>, i: nat) {
    && listed.Keys == Names(comps)
    && (forall k | 0 <= k < |comps| :: comps[k].name in listed)
    && (forall k | 0 <= k < |comps| :: listed[comps[k].name] == if k < i then comps[k].depends else [])
  }

  function Zeros(names: set<string>): map<string, int> {
    map n | n in names :: 0
  }

  function Empties(names: set<string>): map<string, seq<string>> {
    map n | n in names :: []
  }

  lemma NothingListed(comps: seq<Component>)
    ensures Reflects(Tables(Zeros(Names(comps)), Empties(Names(comps))), Empties(Names(comps)))
    ensures ListedUpTo(comps, Empties(Names(comps)), 0)
  {
    forall k | 0 <= k < |comps| ensures comps[k].name in Names(comps) {
      assert comps[k] in comps;
    }
  }

  lemma CountNext(comps: seq<Component>, listed: map<string, seq<string>>, i: nat)
    requires Unique(comps) && Known(comps) && ListedUpTo(comps, listed, i) && i < |comps|
    ensures comps[i].name in listed && listed[comps[i].name] == []
    ensures forall d | d in comps[i].depends :: d in listed
    ensures ListedUpTo(comps, listed[comps[i].name := comps[i].depends], i + 1)
  {
    assert comps[i] in comps;
  }

  lemma AllListed(comps: seq<Component>, t: Tables, listed: map<string, seq<string>>)
    requires Unique(comps) && Reflects(t, listed) && ListedUpTo(comps, listed, |comps|)
    ensures Complete(comps, t) && Waiting(comps, t.degree, [])
  {
    forall n | n in Names(comps) ensures listed[n] == Deps(comps, n) {
      var c :| c in comps && c.name == n;
    }
    forall n | n in Names(comps) ensures t.degree[n] == Left(Deps(comps, n), Done([])) {
      AllLeft(listed[n]);
      assert Done([]) == {};
    }
  }

  // The in-degrees once the first dependents of the component after `order` have been visited.
  ghost predicate Released(comps: seq<Component>, degree: map<string, int>, order: seq<string>, visited: seq<string>)
    requires Unique(comps)
  {
    && degree.Keys == Names(comps)
    && forall n | n in Names(comps) :: degree[n] == Left(Deps(comps, n), Done(order)) - multiset(visited)[n]
  }

  lemma NotBeforeQueue(comps: seq<Component>, degree: map<string, int>, order: seq<string>, name: string,
                       queue: seq<string>)
    requires Unique(comps) && Settled(comps, degree, order + [name], queue)
    ensures name !in order
  {
    var s := order + [name] + queue;
    assert s[|order|] == name;
    forall i | 0 <= i < |order| ensures order[i] != name {
      assert s[i] == order[i];
    }
  }

  // Counting down the in-degree of the next dependent; repeated entries count down repeatedly.
  lemma CountDown(comps: seq<Component>, t: Tables, degree: map<string, int>, order: seq<string>, name: string, k: nat)
    requires Unique(comps) && Complete(comps, t) && name in Names(comps) && k < |t.adj[name]| && name !in order
    requires Released(comps, degree, order, t.adj[name][..k])
    ensures var next := t.adj[name][k];
            && next in degree && degree[next] >= 1
            && Released(comps, degree[next := degree[next] - 1], order, t.adj[name][..k + 1])
  {
    hide Left, Unique, Names;
    var adj := t.adj[name];
    var next := adj[k];
    assert next in adj;
    OneMoreDone(Deps(comps, next), Done(order), name);
    PrefixCounts(adj, k);
    assert multiset(adj)[next] == multiset(Deps(comps, next))[name];
  }

  lemma PrefixCounts(s: seq<string>, k: nat)
    requires k < |s|
    ensures multiset(s[..k + 1]) == multiset(s[..k])[s[k] := multiset(s[..k])[s[k]] + 1]
    ensures multiset(s)[s[k]] >= multiset(s[..k])[s[k]] + 1
  {
    assert s[..k + 1] == s[..k] + [s[k]];
    assert s == s[..k + 1] + s[k + 1..];
  }

  // A component enters the queue exactly when its in-degree reaches zero, so it enters once.
  lemma JoinQueue(comps: seq<Component>, degree: map<string, int>, order: seq<string>, queue: seq<string>, next: string)
    requires Unique(comps) && Settled(comps, degree, order, queue) && next in degree && degree[next] >= 1
    ensures var degree' := degree[next := degree[next] - 1];
            Settled(comps, degree', order, if degree'[next] == 0 then queue + [next] else queue)
  {
    var all := order + queue;
    assert next !in all;
    assert order + (queue + [next]) == all + [next];
  }

  lemma NoneReleased(comps: seq<Component>, degree: map<string, int>, order: seq<string>)
    requires Unique(comps) && degree.Keys == Names(comps) && Waiting(comps, degree, order)
    ensures Released(comps, degree, order, [])
  {
  }

  lemma AllReleased(comps: seq<Component>, t: Tables, degree: map<string, int>, order: seq<string>, name: string)
    requires Unique(comps) && Complete(comps, t) && name in Names(comps) && name !in order
    requires Released(comps, degree, order, t.adj[name])
    ensures Waiting(comps, degree, order + [name])
  {
    assert Done(order + [name]) == Done(order) + {name};
    forall n | n in Names(comps) ensures degree[n] == Left(Deps(comps, n), Done(order + [name])) {
      OneMoreDone(Deps(comps, n), Done(order), name);
    }
  }

  // The head of the queue has all its dependencies built.
  lemma TakeFirst(comps: seq<Component>, degree: map<string, int>, order: seq<string>, queue: seq<string>)
    requires Unique(comps) && queue != [] && Settled(comps, degree, order, queue)
    requires Waiting(comps, degree, order) && Sorted(comps, order)
    ensures queue[0] in Names(comps) && Settled(comps, degree, order + [queue[0]], queue[1..])
    ensures Sorted(comps, order + [queue[0]]) && |order| < |comps|
  {
    var name := queue[0];
    var order' := order + [name];
    assert order + queue == order' + queue[1..];
    assert name in order + queue;
    NothingLeft(Deps(comps, name), Done(order));
    assert NoRepeats(order') by {
      assert NoRepeats(order' + queue[1..]);
      assert order' == (order' + queue[1..])[..|order'|];
    }
    forall n | n in order' ensures n in Names(comps) {
      assert n in order + queue;
    }
    forall i, d | 0 <= i < |order'| && DependsOn(comps, order'[i], d) ensures d in order'[..i] {
      assert order'[..i] == order[..i];
      if i == |order| {
        assert d in Deps(comps, name) && d in Done(order);
      }
    }
    ListIsNoLonger(order', Names(comps));
    NamesAreAsMany(comps);
  }

  lemma SettledKeys(comps: seq<Component>, degree: map<string, int>, order: seq<string>, queue: seq<string>)
    requires Unique(comps) && Settled(comps, degree, order, queue)
    ensures degree.Keys == Names(comps)
  {
  }

  lemma WaitingKeys(comps: seq<Component>, t: Tables)
    requires Unique(comps) && Complete(comps, t)
    ensures t.degree.Keys == t.adj.Keys == Names(comps)
  {
  }

  lemma EmptyIsSorted(comps: seq<Component>)
    ensures Sorted(comps, [])
  {
  }

  lemma UnknownIsUnknown(comps: seq<Component>, i: nat, j: nat)
    requires FirstUnknown(comps, i, j)
    ensures i < |comps| && j < |comps[i].depends| && !Known(comps)
  {
    assert comps[i] in comps && comps[i].depends[j] in comps[i].depends;
  }

  // When the queue runs dry, what is missing from the order is stuck in or behind a cycle.
  lemma Finished(comps: seq<Component>, degree: map<string, int>, order: seq<string>)
    requires Unique(comps) && Known(comps) && Sorted(comps, order)
    requires Settled(comps, degree, order, []) && Waiting(comps, degree, order)
    ensures forall n | n in Names(comps) :: n in Names(comps) - Done(order) <==> ReachesCycle(comps, n)
    ensures |order| == |comps| <==> Done(order) == Names(comps)
    ensures |order| != |comps| <==> HasCycle(comps)
  {
    hide ReachesCycle, HasCycle;
    var stuck := Names(comps) - Done(order);
    assert order + [] == order;
    assert Stuck(comps, stuck) by {
      forall n | n in stuck ensures DependsInto(comps, stuck, n) {
        assert n !in order && degree[n] != 0;
        NothingLeft(Deps(comps, n), Done(order));
        var d :| d in Deps(comps, n) && d !in Done(order);
        var c :| c in comps && c.name == n;
        assert d in c.depends;
        assert d in stuck && DependsOn(comps, n, d);
      }
    }
    forall n | n in Names(comps) ensures n in stuck <==> ReachesCycle(comps, n) {
      if n in stuck {
        StuckReachesCycle(comps, stuck, n);
      } else {
        OrderedIsAcyclic(comps, order, n);
      }
    }
    ListIsNoLonger(order, Names(comps));
    NamesAreAsMany(comps);
    assert Done(order) == Names(comps) ==> |order| == |comps| by {
      if Done(order) == Names(comps) {
        ListCoversItsSet(order);
      }
    }
    CyclesAreStuck(comps, stuck);
  }

  lemma {:induction false} ListCoversItsSet(order: seq<string>)
    ensures |Done(order)| <= |order|
    decreases |order|
  {
    if order == [] {
      assert Done(order) == {};
    } else {
      ListCoversItsSet(order[1..]);
      assert order == [order[0]] + order[1..];
      assert Done(order) == {order[0]} + Done(order[1..]);
    }
  }

  lemma CyclesAreStuck(comps: seq<Component>, stuck: set<string>)
    requires stuck <= Names(comps) && forall n | n in Names(comps) :: n in stuck <==> ReachesCycle(comps, n)
    ensures stuck != {} <==> HasCycle(comps)
  {
    if stuck != {} {
      var n :| n in stuck;
      CycleInLasso(comps, n);
    }
    if HasCycle(comps) {
      var p :| Cycle(comps, p);
      CycleIsLasso(comps, p);
    }
  }

  // The first i components have been looked at for the queue.
  ghost predicate QueuedUpTo(comps: seq<Component>, degree: map<string, int>, queue: seq<string>, i: nat) {
    && degree.Keys == Names(comps) && NoRepeats(queue) && i <= |comps|
    && (forall n | n in queue :: n in degree && degree[n] == 0 && exists k :: 0 <= k < i && comps[k].name == n)
    && (forall k | 0 <= k < i :: comps[k].name in degree && (degree[comps[k].name] == 0 ==> comps[k].name in queue))
  }

  lemma QueueNext(comps: seq<Component>, degree: map<string, int>, queue: seq<string>, i: nat)
    requires Unique(comps) && QueuedUpTo(comps, degree, queue, i) && i < |comps|
    ensures comps[i].name in degree
    ensures QueuedUpTo(comps, degree, if degree[comps[i].name] == 0 then queue + [comps[i].name] else queue, i + 1)
  {
    assert comps[i] in comps;
    assert comps[i].name !in queue;
  }

  lemma AllQueued(comps: seq<Component>, degree: map<string, int>, queue: seq<string>)
    requires Unique(comps) && QueuedUpTo(comps, degree, queue, |comps|)
    ensures Settled(comps, degree, [], queue)
  {
    assert [] + queue == queue;
    forall n | n in Names(comps) ensures n in queue <==> degree[n] == 0 {
      var c :| c in comps && c.name == n;
      var k :| 0 <= k < |comps| && comps[k] == c;
    }
  }
}
