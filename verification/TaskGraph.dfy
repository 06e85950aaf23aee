/** The two checks of task dependencies, in the configuration and in the scheduler: they
    accept exactly the acyclic graphs without self, duplicate or unknown dependencies, and
    the scheduler installs each declared dependency as one input of its own trigger. */
module TaskGraph {
  import opened Kahn
  import Scheduler

  type Name = Scheduler.Name

  datatype Kind = Task | Other

  /** A declared trigger; only task-dependency triggers have upstream tasks. */
  datatype TriggerSpec = TriggerSpec(
    kind: Kind, policy: Scheduler.Policy, dependencies: seq<Name>, priority: int, deadline: int)

  datatype ComponentSpec = ComponentSpec(name: Name, triggers: seq<TriggerSpec>)

  datatype Status = Ok | EmptyDependency | SelfDependency | DuplicateDependency | UnknownDependency | Cycle

  // ---- what is declared --------------------------------------------------------------

  function Names(components: seq<ComponentSpec>): seq<Name> {
    seq(|components|, i requires 0 <= i < |components| => components[i].name)
  }

  /** The triggers on other tasks, in order. */
  function TaskTriggers(triggers: seq<TriggerSpec>): seq<TriggerSpec> {
    if triggers == [] then []
    else
      var last := triggers[|triggers| - 1];
      TaskTriggers(triggers[..|triggers| - 1]) + if last.kind.Task? then [last] else []
  }

  /** `up` is dependency number `d.dependency` of task trigger number `d.trigger` of component `c`. */
  predicate Declares(c: ComponentSpec, up: Name, d: Scheduler.Dependent) {
    && c.name == d.component
    && d.trigger < |TaskTriggers(c.triggers)|
    && d.dependency < |TaskTriggers(c.triggers)[d.trigger].dependencies|
    && TaskTriggers(c.triggers)[d.trigger].dependencies[d.dependency] == up
  }

  /** That of one of the components. */
  predicate Declared(components: seq<ComponentSpec>, up: Name, d: Scheduler.Dependent) {
    exists i :: 0 <= i < |components| && Declares(components[i], up, d)
  }

  /** One declared dependency: completing `up` marks `d`. */
  datatype Link = Link(up: Name, d: Scheduler.Dependent)

  function DependencyLinks(name: Name, index: nat, dependencies: seq<Name>): seq<Link> {
    if dependencies == [] then []
    else
      var n := |dependencies| - 1;
      DependencyLinks(name, index, dependencies[..n]) + [Link(dependencies[n], Scheduler.Dependent(name, index, n))]
  }

  function TriggerLinks(name: Name, triggers: seq<TriggerSpec>): seq<Link> {
    if triggers == [] then []
    else
      var init, last := triggers[..|triggers| - 1], triggers[|triggers| - 1];
      TriggerLinks(name, init)
        + if last.kind.Task? then DependencyLinks(name, |TaskTriggers(init)|, last.dependencies) else []
  }

  /** All of them, in the order in which the checks come to them. */
  function Links(components: seq<ComponentSpec>): seq<Link> {
    if components == [] then []
    else
      var last := components[|components| - 1];
      Links(components[..|components| - 1]) + TriggerLinks(last.name, last.triggers)
  }

  function EdgesOf(links: seq<Link>): seq<Edge<Name>> {
    if links == [] then []
    else
      var last := links[|links| - 1];
      EdgesOf(links[..|links| - 1]) + [Edge(last.up, last.d.component)]
  }

  /** The dependency multigraph: one edge per declared dependency. */
  function Edges(components: seq<ComponentSpec>): seq<Edge<Name>> {
    EdgesOf(Links(components))
  }

  /** A task trigger without a deadline of its own has none. */
  function EffectiveDeadline(t: TriggerSpec): int {
    if t.deadline > 0 then t.deadline else 0
  }

  /** A component's task triggers as the scheduler keeps them: nothing ready yet. */
  function TaskStates(triggers: seq<TriggerSpec>): seq<Scheduler.Trigger> {
    if triggers == [] then []
    else
      var last := triggers[|triggers| - 1];
      var init := TaskStates(triggers[..|triggers| - 1]);
      if last.kind.Task?
      then init + [Scheduler.Trigger(last.policy, seq(|last.dependencies|, _ => false), last.priority, EffectiveDeadline(last))]
      else init
  }

  /** The first `count` dependencies are known, distinct and not the component itself. */
  predicate Good(name: Name, dependencies: seq<Name>, count: nat, names: seq<Name>)
    requires count <= |dependencies|
  {
    && (forall j :: 0 <= j < count ==> dependencies[j] != name && dependencies[j] in names)
    && (forall j, k :: 0 <= j < k < count ==> dependencies[j] != dependencies[k])
  }

  predicate TriggerOk(name: Name, t: TriggerSpec, names: seq<Name>, rejectEmpty: bool) {
    t.kind.Task? ==>
      && (rejectEmpty ==> t.dependencies != [])
      && Good(name, t.dependencies, |t.dependencies|, names)
  }

  predicate FirstOk(c: ComponentSpec, count: nat, names: seq<Name>, rejectEmpty: bool)
    requires count <= |c.triggers|
  {
    forall i :: 0 <= i < count ==> TriggerOk(c.name, c.triggers[i], names, rejectEmpty)
  }

  predicate ComponentOk(c: ComponentSpec, names: seq<Name>, rejectEmpty: bool) {
    FirstOk(c, |c.triggers|, names, rejectEmpty)
  }

  predicate AllOk(components: seq<ComponentSpec>, names: seq<Name>, rejectEmpty: bool) {
    forall i :: 0 <= i < |components| ==> ComponentOk(components[i], names, rejectEmpty)
  }

  // ---- each declared dependency is one link --------------------------------------------

  lemma {:induction false} OccurrencesOfConcat<T>(a: seq<T>, b: seq<T>, x: T)
    ensures Occurrences(a + b, x) == Occurrences(a, x) + Occurrences(b, x)
    decreases |b|
  {
    if b == [] {
      assert a + b == a;
    } else {
      OccurrencesOfConcat(a, b[..|b| - 1], x);
      assert (a + b)[..|a + b| - 1] == a + b[..|b| - 1];
    }
  }

  lemma {:induction false} DependencyLinksOnce(name: Name, index: nat, dependencies: seq<Name>, up: Name, d: Scheduler.Dependent)
    ensures Occurrences(DependencyLinks(name, index, dependencies), Link(up, d))
            == if d.component == name && d.trigger == index && d.dependency < |dependencies| && dependencies[d.dependency] == up then 1 else 0
  {
    if dependencies != [] {
      var n := |dependencies| - 1;
      DependencyLinksOnce(name, index, dependencies[..n], up, d);
      var init, next := DependencyLinks(name, index, dependencies[..n]), Link(dependencies[n], Scheduler.Dependent(name, index, n));
      assert (init + [next])[..|init|] == init;
    }
  }

  lemma {:induction false} TriggerLinksOnce(c: ComponentSpec, k: nat, up: Name, d: Scheduler.Dependent)
    requires k <= |c.triggers|
    ensures Occurrences(TriggerLinks(c.name, c.triggers[..k]), Link(up, d))
            == if Declares(ComponentSpec(c.name, c.triggers[..k]), up, d) then 1 else 0
  {
    if k > 0 {
      var init, t := c.triggers[..k - 1], c.triggers[k - 1];
      assert c.triggers[..k][..k - 1] == init;
      TriggerLinksOnce(c, k - 1, up, d);
      if t.kind.Task? {
        var index := |TaskTriggers(init)|;
        assert TaskTriggers(c.triggers[..k]) == TaskTriggers(init) + [t];
        DependencyLinksOnce(c.name, index, t.dependencies, up, d);
        OccurrencesOfConcat(TriggerLinks(c.name, init), DependencyLinks(c.name, index, t.dependencies), Link(up, d));
      } else {
        assert TriggerLinks(c.name, init) + [] == TriggerLinks(c.name, init);
        assert TaskTriggers(init) + [] == TaskTriggers(init);
      }
    }
  }

  lemma UniqueFront(components: seq<ComponentSpec>)
    requires components != [] && Unique(Names(components))
    ensures Unique(Names(components[..|components| - 1]))
    ensures forall i :: 0 <= i < |components| - 1 ==> components[i].name != components[|components| - 1].name
  {
    var init := components[..|components| - 1];
    assert forall j :: 0 <= j < |init| ==> Names(init)[j] == Names(components)[j];
    forall i | 0 <= i < |components| - 1 ensures components[i].name != components[|components| - 1].name {
      assert Names(components)[i] != Names(components)[|components| - 1];
    }
  }

  /** Every declared dependency, and nothing else, is a link, and it is one once. */
  lemma {:induction false} LinksOnce(components: seq<ComponentSpec>, up: Name, d: Scheduler.Dependent)
    requires Unique(Names(components))
    ensures Occurrences(Links(components), Link(up, d)) == if Declared(components, up, d) then 1 else 0
  {
    if components != [] {
      var init, last := components[..|components| - 1], components[|components| - 1];
      UniqueFront(components);
      LinksOnce(init, up, d);
      TriggerLinksOnce(last, |last.triggers|, up, d);
      assert last.triggers[..|last.triggers|] == last.triggers;
      OccurrencesOfConcat(Links(init), TriggerLinks(last.name, last.triggers), Link(up, d));
      DeclaredFront(components, up, d);
    }
  }

  lemma DeclaredFront(components: seq<ComponentSpec>, up: Name, d: Scheduler.Dependent)
    requires components != [] && Unique(Names(components))
    ensures var init, last := components[..|components| - 1], components[|components| - 1];
      && Declared(components, up, d) == (Declared(init, up, d) || Declares(last, up, d))
      && !(Declared(init, up, d) && Declares(last, up, d))
  {
    var init, last := components[..|components| - 1], components[|components| - 1];
    UniqueFront(components);
    if Declared(components, up, d) && !Declares(last, up, d) {
      var i :| 0 <= i < |components| && Declares(components[i], up, d);
      assert Declares(init[i], up, d);
    }
    if Declared(init, up, d) {
      var i :| 0 <= i < |init| && Declares(init[i], up, d);
      assert Declares(components[i], up, d);
    }
  }

  /** The dependents that links give an upstream component. */
  function Dependents(links: seq<Link>, up: Name): seq<Scheduler.Dependent> {
    if links == [] then []
    else
      var last := links[|links| - 1];
      Dependents(links[..|links| - 1], up) + if last.up == up then [last.d] else []
  }

  lemma {:induction false} DependentsAreLinks(links: seq<Link>, up: Name, d: Scheduler.Dependent)
    ensures Occurrences(Dependents(links, up), d) == Occurrences(links, Link(up, d))
  {
    if links != [] {
      var init, last := links[..|links| - 1], links[|links| - 1];
      DependentsAreLinks(init, up, d);
      var before := Dependents(init, up);
      if last.up == up {
        assert (before + [last.d])[..|before|] == before;
      } else {
        assert before + [] == before;
      }
    }
  }

  /** The components that a list of dependents names, in order. */
  function Targets(ds: seq<Scheduler.Dependent>): seq<Name> {
    if ds == [] then [] else Targets(ds[..|ds| - 1]) + [ds[|ds| - 1].component]
  }

  lemma {:induction false} TargetsAreDowns(links: seq<Link>, up: Name)
    ensures Targets(Dependents(links, up)) == Downs(EdgesOf(links), up)
  {
    if links != [] {
      var init, last := links[..|links| - 1], links[|links| - 1];
      TargetsAreDowns(init, up);
      var edges, before := EdgesOf(init), Dependents(init, up);
      assert (edges + [Edge(last.up, last.d.component)])[..|edges|] == edges;
      if last.up == up {
        assert (before + [last.d])[..|before|] == before;
      } else {
        assert before + [] == before;
      }
    }
  }

  lemma {:induction false} OccursIn<T>(s: seq<T>, x: T)
    ensures x in s <==> Occurrences(s, x) > 0
  {
    if s != [] {
      OccursIn(s[..|s| - 1], x);
      assert s == s[..|s| - 1] + [s[|s| - 1]];
    }
  }

  lemma {:induction false} EdgesAreLinks(links: seq<Link>, e: Edge<Name>)
    ensures e in EdgesOf(links) <==> exists l :: l in links && e == Edge(l.up, l.d.component)
  {
    if links != [] {
      var init, last := links[..|links| - 1], links[|links| - 1];
      EdgesAreLinks(init, e);
      assert links == init + [last];
      assert last in links;
    }
  }

  /** There is an edge exactly if a trigger of the lower component declares the upper one. */
  lemma EdgesAreDeclared(components: seq<ComponentSpec>, up: Name, down: Name)
    requires Unique(Names(components))
    ensures Edge(up, down) in Edges(components) <==> exists d: Scheduler.Dependent :: d.component == down && Declared(components, up, d)
  {
    var links := Links(components);
    EdgesAreLinks(links, Edge(up, down));
    forall d ensures Declared(components, up, d) <==> Link(up, d) in links {
      LinksOnce(components, up, d);
      OccursIn(links, Link(up, d));
    }
    if l: Link :| l in links && Edge(up, down) == Edge(l.up, l.d.component) {
      assert l == Link(up, l.d);
    }
    if d: Scheduler.Dependent :| d.component == down && Declared(components, up, d) {
      assert Link(up, d) in links;
    }
  }

  // ---- the tables being built --------------------------------------------------------

  datatype Tables = Tables(dependents: map<Name, seq<Scheduler.Dependent>>, indegree: map<Name, nat>)

  ghost predicate Tallies(t: Tables, nodes: seq<Name>, links: seq<Link>) {
    && (forall n :: n in t.dependents ==> n in nodes)
    && (forall n :: n in nodes ==>
          && n in t.dependents && t.dependents[n] == Dependents(links, n)
          && n in t.indegree && t.indegree[n] == InDegree(EdgesOf(links), n, {}))
  }

  /** One dependency enters the tables. */
  lemma AddTallies(t: Tables, nodes: seq<Name>, links: seq<Link>, up: Name, d: Scheduler.Dependent)
    requires Tallies(t, nodes, links) && up in nodes && d.component in nodes
    ensures Tallies(
              Tables(t.dependents[up := t.dependents[up] + [d]],
                     t.indegree[d.component := t.indegree[d.component] + 1]),
              nodes, links + [Link(up, d)])
  {
    var links' := links + [Link(up, d)];
    assert links'[..|links'| - 1] == links;
    var edges' := EdgesOf(links) + [Edge(up, d.component)];
    assert EdgesOf(links') == edges';
    assert edges'[..|edges'| - 1] == EdgesOf(links);
  }

  /** One task trigger: checks its upstreams in order and records a dependent for each. */
  method ScanTrigger(
    name: Name, t: TriggerSpec, index: nat, names: seq<Name>, rejectEmpty: bool, tables0: Tables, ghost links: seq<Link>)
    returns (status: Status, tables: Tables)
    requires t.kind.Task? && name in names && Tallies(tables0, names, links)
    ensures status != Cycle
    ensures status == Ok <==> TriggerOk(name, t, names, rejectEmpty)
    ensures status == Ok ==> Tallies(tables, names, links + DependencyLinks(name, index, t.dependencies))
  {
    tables := tables0;
    if rejectEmpty && t.dependencies == [] {
      return EmptyDependency, tables;
    }
    var deps := t.dependencies;
    var seen: set<Name> := {};
    ghost var acc := links;
    for i := 0 to |deps|
      invariant Good(name, deps, i, names) && Seen(seen, deps, i)
      invariant acc == links + DependencyLinks(name, index, deps[..i])
      invariant Tallies(tables, names, acc)
    {
      status, seen := CheckOne(name, deps, i, seen, names);
      if status != Ok {
        return status, tables;
      }
      NextLinks(name, index, deps, i, links);
      tables, acc := Record(tables, deps[i], Scheduler.Dependent(name, index, i), names, acc);
    }
    assert deps[..|deps|] == deps;
    return Ok, tables;
  }

  /** `seen` holds the first `count` dependencies. */
  ghost predicate Seen(seen: set<Name>, dependencies: seq<Name>, count: nat)
    requires count <= |dependencies|
  {
    && (forall j :: 0 <= j < count ==> dependencies[j] in seen)
    && (forall x :: x in seen ==> exists j :: 0 <= j < count && dependencies[j] == x)
  }

  method CheckOne(name: Name, dependencies: seq<Name>, i: nat, seen0: set<Name>, names: seq<Name>)
    returns (status: Status, seen: set<Name>)
    requires i < |dependencies| && Good(name, dependencies, i, names) && Seen(seen0, dependencies, i)
    ensures status == Ok ==> Good(name, dependencies, i + 1, names) && Seen(seen, dependencies, i + 1)
    ensures status != Ok ==> status != Cycle && !Good(name, dependencies, |dependencies|, names)
    ensures status == SelfDependency <==> dependencies[i] == name
    ensures status == DuplicateDependency <==> dependencies[i] != name && exists j :: 0 <= j < i && dependencies[j] == dependencies[i]
    ensures status == UnknownDependency ==> dependencies[i] !in names
  {
    var up := dependencies[i];
    seen := seen0;
    if up == name {
      return SelfDependency, seen;
    }
    if up in seen {
      return DuplicateDependency, seen;
    }
    if up !in names {
      return UnknownDependency, seen;
    }
    seen := seen + {up};
    return Ok, seen;
  }

  /** One dependency enters the tables. */
  method Record(tables0: Tables, up: Name, d: Scheduler.Dependent, names: seq<Name>, ghost links0: seq<Link>)
    returns (tables: Tables, ghost links: seq<Link>)
    requires Tallies(tables0, names, links0) && up in names && d.component in names
    ensures links == links0 + [Link(up, d)] && Tallies(tables, names, links)
  {
    AddTallies(tables0, names, links0, up, d);
    links := links0 + [Link(up, d)];
    tables := Tables(tables0.dependents[up := tables0.dependents[up] + [d]],
                     tables0.indegree[d.component := tables0.indegree[d.component] + 1]);
  }

  lemma NextLinks(name: Name, index: nat, deps: seq<Name>, i: nat, links: seq<Link>)
    requires i < |deps|
    ensures links + DependencyLinks(name, index, deps[..i + 1])
            == (links + DependencyLinks(name, index, deps[..i])) + [Link(deps[i], Scheduler.Dependent(name, index, i))]
  {
    assert deps[..i + 1][..i] == deps[..i];
  }

  // ---- all triggers of all components --------------------------------------------------

  lemma NextTrigger(c: ComponentSpec, i: nat, links: seq<Link>)
    requires i < |c.triggers|
    ensures var t, before, index := c.triggers[i], links + TriggerLinks(c.name, c.triggers[..i]), |TaskTriggers(c.triggers[..i])|;
            && links + TriggerLinks(c.name, c.triggers[..i + 1])
               == (if t.kind.Task? then before + DependencyLinks(c.name, index, t.dependencies) else before)
            && |TaskTriggers(c.triggers[..i + 1])| == index + if t.kind.Task? then 1 else 0
  {
    assert c.triggers[..i + 1][..i] == c.triggers[..i];
  }

  /** Trigger `i` of a component, whatever its kind. */
  method ScanNext(
    c: ComponentSpec, i: nat, index0: nat, names: seq<Name>, rejectEmpty: bool,
    tables0: Tables, ghost links: seq<Link>, ghost acc0: seq<Link>)
    returns (status: Status, index: nat, tables: Tables, ghost acc: seq<Link>)
    requires i < |c.triggers| && c.name in names && Tallies(tables0, names, acc0)
    requires index0 == |TaskTriggers(c.triggers[..i])| && acc0 == links + TriggerLinks(c.name, c.triggers[..i])
    ensures status != Cycle
    ensures status == Ok <==> TriggerOk(c.name, c.triggers[i], names, rejectEmpty)
    ensures status == Ok ==>
              && index == |TaskTriggers(c.triggers[..i + 1])| && acc == links + TriggerLinks(c.name, c.triggers[..i + 1])
              && Tallies(tables, names, acc)
  {
    status, index, tables, acc := Ok, index0, tables0, acc0;
    var t := c.triggers[i];
    NextTrigger(c, i, links);
    if t.kind.Task? {
      status, tables := ScanTrigger(c.name, t, index0, names, rejectEmpty, tables0, acc0);
      index := index0 + 1;
      acc := acc0 + DependencyLinks(c.name, index0, t.dependencies);
    }
  }

  method ScanComponent(
    c: ComponentSpec, names: seq<Name>, rejectEmpty: bool, tables0: Tables, ghost links: seq<Link>)
    returns (status: Status, tables: Tables)
    requires c.name in names && Tallies(tables0, names, links)
    ensures status != Cycle
    ensures status == Ok <==> ComponentOk(c, names, rejectEmpty)
    ensures status == Ok ==> Tallies(tables, names, links + TriggerLinks(c.name, c.triggers))
  {
    tables := tables0;
    var index := 0;
    ghost var acc := links;
    for i := 0 to |c.triggers|
      invariant index == |TaskTriggers(c.triggers[..i])|
      invariant acc == links + TriggerLinks(c.name, c.triggers[..i])
      invariant FirstOk(c, i, names, rejectEmpty)
      invariant Tallies(tables, names, acc)
    {
      status, index, tables, acc := ScanNext(c, i, index, names, rejectEmpty, tables, links, acc);
      if status != Ok {
        return status, tables;
      }
    }
    assert c.triggers[..|c.triggers|] == c.triggers;
    return Ok, tables;
  }

  /** The installed states of every component. */
  function States(components: seq<ComponentSpec>): map<Name, seq<Scheduler.Trigger>> {
    if components == [] then map[]
    else
      var last := components[|components| - 1];
      States(components[..|components| - 1])[last.name := TaskStates(last.triggers)]
  }

  lemma {:induction false} StatesOf(components: seq<ComponentSpec>, i: nat)
    requires i < |components| && Unique(Names(components))
    ensures var c := components[i]; c.name in States(components) && States(components)[c.name] == TaskStates(c.triggers)
  {
    if i < |components| - 1 {
      UniqueFront(components);
      StatesOf(components[..|components| - 1], i);
    }
  }

  function EmptyTables(names: seq<Name>): Tables {
    Tables(map n | n in names :: [], map n | n in names :: 0)
  }

  /** Component `i`. */
  method ScanAt(components: seq<ComponentSpec>, i: nat, names: seq<Name>, rejectEmpty: bool, tables0: Tables, ghost links0: seq<Link>)
    returns (status: Status, tables: Tables, ghost links: seq<Link>)
    requires i < |components| && names == Names(components)
    requires links0 == Links(components[..i]) && Tallies(tables0, names, links0)
    ensures status != Cycle
    ensures status == Ok <==> ComponentOk(components[i], names, rejectEmpty)
    ensures status == Ok ==> links == Links(components[..i + 1]) && Tallies(tables, names, links)
  {
    var c := components[i];
    assert names[i] == c.name;
    status, tables := ScanComponent(c, names, rejectEmpty, tables0, links0);
    assert components[..i + 1][..i] == components[..i];
    links := links0 + TriggerLinks(c.name, c.triggers);
  }

  method Scan(components: seq<ComponentSpec>, rejectEmpty: bool) returns (status: Status, tables: Tables)
    requires Unique(Names(components))
    ensures status != Cycle
    ensures status == Ok <==> AllOk(components, Names(components), rejectEmpty)
    ensures status == Ok ==> Tallies(tables, Names(components), Links(components))
  {
    var names := Names(components);
    tables := EmptyTables(names);
    ghost var acc := [];
    for i := 0 to |components|
      invariant acc == Links(components[..i])
      invariant forall j :: 0 <= j < i ==> ComponentOk(components[j], names, rejectEmpty)
      invariant Tallies(tables, names, acc)
    {
      status, tables, acc := ScanAt(components, i, names, rejectEmpty, tables, acc);
      if status != Ok {
        return status, tables;
      }
    }
    assert components[..|components|] == components;
    return Ok, tables;
  }

  // ---- the graph of good components --------------------------------------------------

  lemma {:induction false} TaskTriggersAreTriggers(triggers: seq<TriggerSpec>, t: nat)
    requires t < |TaskTriggers(triggers)|
    ensures TaskTriggers(triggers)[t] in triggers && TaskTriggers(triggers)[t].kind.Task?
  {
    var init := triggers[..|triggers| - 1];
    if t < |TaskTriggers(init)| {
      TaskTriggersAreTriggers(init, t);
    }
  }

  /** What good components declare is good. */
  lemma DeclaredIsGood(components: seq<ComponentSpec>, names: seq<Name>, rejectEmpty: bool, i: nat, t: nat)
    requires AllOk(components, names, rejectEmpty) && i < |components| && t < |TaskTriggers(components[i].triggers)|
    ensures TriggerOk(components[i].name, TaskTriggers(components[i].triggers)[t], names, rejectEmpty)
    ensures TaskTriggers(components[i].triggers)[t].kind.Task?
  {
    var c := components[i];
    TaskTriggersAreTriggers(c.triggers, t);
    assert ComponentOk(c, names, rejectEmpty);
    var k :| 0 <= k < |c.triggers| && c.triggers[k] == TaskTriggers(c.triggers)[t];
    assert TriggerOk(c.name, c.triggers[k], names, rejectEmpty);
  }

  lemma EdgesOver(components: seq<ComponentSpec>, names: seq<Name>, rejectEmpty: bool)
    requires Unique(names) && names == Names(components) && AllOk(components, names, rejectEmpty)
    ensures Over(Edges(components), names)
  {
    forall e | e in Edges(components) ensures e.up in names && e.down in names {
      EdgesAreDeclared(components, e.up, e.down);
      assert Edge(e.up, e.down) == e;
      var d: Scheduler.Dependent :| d.component == e.down && Declared(components, e.up, d);
      var i :| 0 <= i < |components| && Declares(components[i], e.up, d);
      DeclaredIsGood(components, names, rejectEmpty, i, d.trigger);
      assert names[i] == e.down;
    }
  }

  /** The body both checks share. */
  method Check(components: seq<ComponentSpec>, rejectEmpty: bool) returns (status: Status, tables: Tables)
    requires Unique(Names(components))
    ensures status == Ok <==> AllOk(components, Names(components), rejectEmpty) && Acyclic(Edges(components))
    ensures status == Cycle <==> AllOk(components, Names(components), rejectEmpty) && !Acyclic(Edges(components))
    ensures status == Ok ==> Tallies(tables, Names(components), Links(components))
  {
    status, tables := Scan(components, rejectEmpty);
    if status != Ok {
      return;
    }
    var names := Names(components);
    EdgesOver(components, names, rejectEmpty);
    var targets := map n | n in names :: Targets(tables.dependents[n]);
    forall n | n in names ensures targets[n] == Downs(Edges(components), n) {
      TargetsAreDowns(Links(components), n);
    }
    var visited := CountVisited(names, Edges(components), targets, tables.indegree);
    if visited != |components| {
      return Cycle, tables;
    }
  }

  /** The configuration's check. ValidateUniqueComponents has run before it. */
  method ValidateTaskDependencies(components: seq<ComponentSpec>) returns (status: Status)
    requires Unique(Names(components))
    ensures status == Ok <==> AllOk(components, Names(components), false) && Acyclic(Edges(components))
    ensures status == Cycle <==> AllOk(components, Names(components), false) && !Acyclic(Edges(components))
  {
    var tables;
    status, tables := Check(components, false);
  }

  // ---- what is installed -------------------------------------------------------------

  /** A trigger as it is kept: as declared, and no dependency has completed yet. */
  ghost predicate Fresh(t: Scheduler.Trigger, spec: TriggerSpec) {
    && t.policy == spec.policy && t.priority == spec.priority
    && (spec.deadline > 0 ==> t.deadline == spec.deadline) && (spec.deadline <= 0 ==> t.deadline == 0)
    && |t.ready| == |spec.dependencies| && forall j :: 0 <= j < |t.ready| ==> !t.ready[j]
  }

  /** A component's triggers are kept in the order in which they are declared. */
  ghost predicate FreshOf(kept: seq<Scheduler.Trigger>, triggers: seq<TriggerSpec>) {
    && |kept| == |TaskTriggers(triggers)|
    && forall t :: 0 <= t < |kept| ==> Fresh(kept[t], TaskTriggers(triggers)[t])
  }

  lemma {:induction false} StatesAreFresh(triggers: seq<TriggerSpec>)
    ensures FreshOf(TaskStates(triggers), triggers)
  {
    if triggers != [] {
      StatesAreFresh(triggers[..|triggers| - 1]);
    }
  }

  /** Completing `up` marks `d` if `up` is that dependency as declared, and marks nothing
      else: `d` is listed once for `up` if so, and otherwise not at all. */
  ghost predicate ListedOnce(components: seq<ComponentSpec>, dependents: map<Name, seq<Scheduler.Dependent>>,
                             up: Name, d: Scheduler.Dependent)
  {
    up in dependents && Occurrences(dependents[up], d) == if Declared(components, up, d) then 1 else 0
  }

  /** What is installed is what is declared: every component keeps its triggers, and every
      upstream lists its dependents once each. Their components are its successors in the graph. */
  ghost predicate WiredAs(components: seq<ComponentSpec>, taskTriggers: map<Name, seq<Scheduler.Trigger>>,
                          dependents: map<Name, seq<Scheduler.Dependent>>)
  {
    && (forall n :: n in taskTriggers <==> n in Names(components))
    && (forall i :: 0 <= i < |components| ==>
          components[i].name in taskTriggers && FreshOf(taskTriggers[components[i].name], components[i].triggers))
    && (forall n :: n in dependents <==> n in Names(components))
    && (forall up, d :: up in Names(components) ==> ListedOnce(components, dependents, up, d))
    && (forall n :: n in Names(components) ==> Targets(dependents[n]) == Downs(Edges(components), n))
  }

  lemma {:induction false} StatesKeys(components: seq<ComponentSpec>, n: Name)
    ensures n in States(components) <==> n in Names(components)
  {
    if components != [] {
      var init := components[..|components| - 1];
      StatesKeys(init, n);
      assert Names(components) == Names(init) + [components[|components| - 1].name];
    }
  }

  lemma LinksAreWired(components: seq<ComponentSpec>, dependents: map<Name, seq<Scheduler.Dependent>>)
    requires Unique(Names(components))
    requires forall n :: n in dependents <==> n in Names(components)
    requires forall n :: n in Names(components) ==> dependents[n] == Dependents(Links(components), n)
    ensures WiredAs(components, States(components), dependents)
  {
    var names := Names(components);
    forall n ensures n in States(components) <==> n in names {
      StatesKeys(components, n);
    }
    forall i | 0 <= i < |components|
      ensures components[i].name in States(components) && FreshOf(States(components)[components[i].name], components[i].triggers)
    {
      StatesOf(components, i);
      StatesAreFresh(components[i].triggers);
    }
    forall up, d | up in names ensures ListedOnce(components, dependents, up, d) {
      LinksOnce(components, up, d);
      DependentsAreLinks(Links(components), up, d);
    }
    forall n | n in names ensures Targets(dependents[n]) == Downs(Edges(components), n) {
      TargetsAreDowns(Links(components), n);
    }
  }

  /** Everything that is wired as declared points at an input that exists. */
  lemma WiredPoints(components: seq<ComponentSpec>, taskTriggers: map<Name, seq<Scheduler.Trigger>>,
                    dependents: map<Name, seq<Scheduler.Dependent>>, up: Name, i: nat)
    requires WiredAs(components, taskTriggers, dependents) && up in dependents && i < |dependents[up]|
    ensures var d := dependents[up][i]; Scheduler.Has(taskTriggers, d.component, d.trigger, d.dependency)
  {
    var d := dependents[up][i];
    OccursIn(dependents[up], d);
    assert ListedOnce(components, dependents, up, d);
    var k :| 0 <= k < |components| && Declares(components[k], up, d);
    assert FreshOf(taskTriggers[components[k].name], components[k].triggers);
    assert Fresh(taskTriggers[d.component][d.trigger], TaskTriggers(components[k].triggers)[d.trigger]);
  }

  /** The scheduler's check, which also installs the triggers. */
  method InstallTaskTriggers(components: seq<ComponentSpec>)
    returns (status: Status, taskTriggers: map<Name, seq<Scheduler.Trigger>>,
             dependents: map<Name, seq<Scheduler.Dependent>>)
    requires Unique(Names(components))
    ensures status == Ok <==> AllOk(components, Names(components), true) && Acyclic(Edges(components))
    ensures status == Cycle <==> AllOk(components, Names(components), true) && !Acyclic(Edges(components))
    ensures status == Ok ==> WiredAs(components, taskTriggers, dependents)
  {
    var tables;
    status, tables := Check(components, true);
    taskTriggers, dependents := map[], map[];
    if status == Ok {
      taskTriggers, dependents := States(components), tables.dependents;
      LinksAreWired(components, dependents);
    }
  }
}
