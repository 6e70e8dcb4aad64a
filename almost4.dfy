/** almost4.py: routers hold a square table over every other router, a round
    collects snapshots from flagged routers before delivering any of them, and
    a topology change re-initialises every table from scratch. */
module Almost4 {
  import opened Common
  import opened Topology
  import opened Relaxation
  import opened Exchange

  /** The row for `d` over the vias `vias`: the diagonal holds the link cost from
      `links` (infinity without a link), every other cell infinity. */
  function InitialRow(d: Node, vias: set<Node>, links: map<Node, nat>): Row {
    map v | v in vias :: if v == d then LinkCost(links, d) else Inf
  }

  function InitialRows(dests: set<Node>, vias: set<Node>, links: map<Node, nat>): Table {
    map d | d in dests :: InitialRow(d, vias, links)
  }

  lemma InitialRowGrows(d: Node, vias: set<Node>, x: Node, links: map<Node, nat>)
    ensures InitialRow(d, vias + {x}, links) == InitialRow(d, vias, links)[x := if x == d then LinkCost(links, d) else Inf]
  {
  }

  lemma InitialRowsGrow(base: Table, dests: set<Node>, x: Node, vias: set<Node>, links: map<Node, nat>)
    ensures base + InitialRows(dests + {x}, vias, links) == (base + InitialRows(dests, vias, links))[x := InitialRow(x, vias, links)]
  {
  }

  /** The table `initialize_distance_table` gives router `self` when the router
      names are `names` and its links are `links`. */
  function InitialTable(self: Node, names: set<Node>, links: map<Node, nat>): Table {
    InitialRows(names - {self}, names - {self}, links)
  }

  /** A fresh table has a row and a column for every other router and none
      for `self`. */
  lemma InitialTableShape(self: Node, names: set<Node>, links: map<Node, nat>)
    ensures Square(InitialTable(self, names, links), names - {self})
    ensures self !in InitialTable(self, names, links)
  {
  }

  /** In a fresh table each destination's diagonal is the direct link (infinity
      without one) and all other cells are infinite. */
  lemma InitialTableCells(self: Node, names: set<Node>, links: map<Node, nat>)
    ensures forall d :: d in names && d != self ==> InitialTable(self, names, links)[d][d] == LinkCost(links, d)
    ensures forall d, v :: d in names && v in names && d != self && v != self && v != d ==>
      InitialTable(self, names, links)[d][v] == Inf
  {
    var others := names - {self};
    forall d | d in names && d != self
      ensures InitialTable(self, names, links)[d] == InitialRow(d, others, links)
    {
    }
  }

  /** Before any exchange, the best cost to each other router is the direct link. */
  lemma InitialBestIsDirect(self: Node, names: set<Node>, links: map<Node, nat>, d: Node)
    requires d in names && d != self
    ensures MinOf(InitialTable(self, names, links)[d]) == LinkCost(links, d)
  {
    var others := names - {self};
    var row := InitialTable(self, names, links)[d];
    assert row == map v | v in others :: if v == d then LinkCost(links, d) else Inf;
    assert d in row && row[d] == LinkCost(links, d);
    forall u | u in row
      ensures !Less(row[u], row[d])
    {
      assert row[u] == (if u == d then LinkCost(links, d) else Inf);
    }
    MinAt(row, d);
  }

  /** The routing-table entry `create_routing_table` promises for one row: the
      minimum cost, no next hop exactly when that is infinity, and otherwise the
      smallest via in Python's string order among those attaining it. */
  ghost predicate SmallestViaMin(row: Row, r: Route) {
    && r.cost == MinOf(row)
    && (r.nextHop.None? <==> r.cost == Inf)
    && (r.nextHop.Some? ==>
          && r.nextHop.value in row
          && row[r.nextHop.value] == r.cost
          && forall u :: u in row && row[u] == r.cost ==> u == r.nextHop.value || LexLess(r.nextHop.value, u))
  }

  /** The entry is determined by the row alone, so deriving the routing table
      again from an unchanged table gives the same routes. */
  lemma SmallestViaMinUnique(row: Row, r1: Route, r2: Route)
    requires SmallestViaMin(row, r1) && SmallestViaMin(row, r2)
    ensures r1 == r2
  {
    if r1.nextHop.Some? && r2.nextHop.Some? {
      var v1, v2 := r1.nextHop.value, r2.nextHop.value;
      if v1 != v2 {
        assert LexLess(v1, v2) && LexLess(v2, v1);
        LexLessAsymmetric(v1, v2);
      }
    }
  }

  class Router {
    const name: Node
    var table: Table
    var routingTable: map<Node, Route>
    var changed: bool

    constructor (name: Node)
      ensures this.name == name && table == map[] && routingTable == map[] && !changed
    {
      this.name := name;
      table := map[];
      routingTable := map[];
      changed := false;
    }

    /** `initialize_distance_table`: a fresh row over every other router for each
        other router named in `allRouters`; rows for other keys stay. */
    method InitializeDistanceTable(allRouters: seq<Node>, g: Graph)
      modifies this
      ensures table == old(table) + InitialTable(name, Elems(allRouters), g.Neighbors(name))
      ensures changed && routingTable == old(routingTable)
    {
      var links := g.Neighbors(name);
      ghost var others := Elems(allRouters) - {name};
      ghost var dests: set<Node> := {};
      var i := 0;
      while i < |allRouters|
        invariant 0 <= i <= |allRouters|
        invariant dests == Elems(allRouters[..i]) - {name}
        invariant table == old(table) + InitialRows(dests, others, links)
        invariant routingTable == old(routingTable)
      {
        var dest := allRouters[i];
        ElemsPrefix(allRouters, i);
        if dest != name {
          var row := BuildRow(allRouters, dest, links);
          InitialRowsGrow(old(table), dests, dest, others, links);
          dests := dests + {dest};
          table := table[dest := row];
        }
        i := i + 1;
      }
      assert allRouters[..|allRouters|] == allRouters;
      changed := true;
    }

    /** The inner loop of `initialize_distance_table`: the row for `dest` over
        every router named in `allRouters` except this one. */
    method BuildRow(allRouters: seq<Node>, dest: Node, links: map<Node, nat>) returns (row: Row)
      ensures row == InitialRow(dest, Elems(allRouters) - {name}, links)
    {
      row := map[];
      ghost var vias: set<Node> := {};
      var j := 0;
      while j < |allRouters|
        invariant 0 <= j <= |allRouters|
        invariant vias == Elems(allRouters[..j]) - {name}
        invariant row == InitialRow(dest, vias, links)
      {
        var via := allRouters[j];
        ElemsPrefix(allRouters, j);
        if via != name {
          InitialRowGrows(dest, vias, via, links);
          vias := vias + {via};
          if via == dest {
            row := row[via := LinkCost(links, dest)];
          } else {
            row := row[via := Inf];
          }
        }
        j := j + 1;
      }
      assert allRouters[..|allRouters|] == allRouters;
    }

    /** `update_distance_table`: relax every row but the sender's own through the
        sender, for the destinations the sender knows; flag a change. Python's
        `min` fails on an empty row, so the sender's rows that are used must be
        non-empty. */
    method UpdateDistanceTable(sender: Node, snap: Table)
      requires forall d :: d in snap && d in table && d != sender ==> snap[d] != map[]
      modifies this
      ensures table == RelaxOne(SkipUnknownDest, old(table), name, sender, snap)
      ensures changed == (old(changed) || table != old(table))
      ensures routingTable == old(routingTable)
    {
      table, changed := UpdateTable(name, table, changed, sender, snap);
    }

    /** `get_distance_table_copy`. */
    method GetDistanceTableCopy() returns (copy: Table)
      ensures copy == table
    {
      copy := CopyTable(table);
    }

    /** `create_routing_table`: for each destination scan the vias in sorted order
        keeping strictly smaller costs; an unreachable destination gets no next
        hop and infinite cost. The distance table is only read. */
    method CreateRoutingTable()
      modifies this
      ensures table == old(table) && changed == old(changed)
      ensures routingTable.Keys == table.Keys
      ensures forall d :: d in table ==> SmallestViaMin(table[d], routingTable[d])
    {
      routingTable := RoutesFor(table);
    }
  }

  /** The inner loop of `create_routing_table` for one row: the vias in sorted
      order, keeping the first strictly smaller cost. */
  method RouteFor(row: Row) returns (r: Route)
    ensures SmallestViaMin(row, r)
  {
    var vias := SortNames(row.Keys);
    assert forall k :: 0 <= k < |vias| ==> vias[k] in row by {
      forall k | 0 <= k < |vias|
        ensures vias[k] in row
      {
        assert vias[k] in Elems(vias);
      }
    }
    r := ScanMin(row, vias);
    FirstMinIsMin(row, vias);
    SortedScanPicksSmallest(row, vias);
  }

  /** The outer loop of `create_routing_table`: destinations in sorted order,
      each given the route its row's smallest cost picks. */
  method RoutesFor(t: Table) returns (routes: map<Node, Route>)
    ensures routes.Keys == t.Keys
    ensures forall d :: d in t ==> SmallestViaMin(t[d], routes[d])
  {
    routes := map[];
    var dests := SortNames(t.Keys);
    var i := 0;
    while i < |dests|
      invariant 0 <= i <= |dests|
      invariant forall j :: 0 <= j < i ==> dests[j] in routes
      invariant forall d :: d in routes ==> d in t && SmallestViaMin(t[d], routes[d])
    {
      var dest := dests[i];
      assert dest in Elems(dests);
      var r := RouteFor(t[dest]);
      routes := routes[dest := r];
      i := i + 1;
    }
    forall d | d in t
      ensures d in routes
    {
      assert d in Elems(dests);
      var j :| 0 <= j < |dests| && dests[j] == d;
    }
  }

  // ---------------------------------------------------------------------------
  // A router's state as values: what `update_distance_table` and
  // `get_distance_table_copy` do to a table and its flag

  /** `update_distance_table` on a router named `self` with table `t` and flag
      `changed`: a router ignores its own table; otherwise it relaxes through the
      sender and is flagged when the table changed. */
  method UpdateTable(self: Node, t: Table, changed: bool, sender: Node, snap: Table)
    returns (t': Table, changed': bool)
    requires forall d :: d in snap && d in t && d != sender ==> snap[d] != map[]
    ensures t' == RelaxOne(SkipUnknownDest, t, self, sender, snap)
    ensures changed' == (changed || t' != t)
  {
    if sender == self {
      RelaxOneIdle(SkipUnknownDest, t, self, sender, snap);
      return t, changed;
    }
    var oldTable := CopyTable(t);
    t' := RelaxThrough(t, self, sender, snap);
    changed' := changed;
    if t' != oldTable {
      changed' := true;
    }
  }

  lemma SkipAt(t: Table, self: Node, s: Node, snap: Table, d: Node)
    requires d in t && s != self
    ensures RelaxOne(SkipUnknownDest, t, self, s, snap)[d] ==
      if d != s && d in snap then t[d][s := Add(DiagOf(t, s), MinOf(snap[d]))] else t[d]
  {
    RelaxOneAt(SkipUnknownDest, t, self, s, snap, d);
  }

  /** The loop of `update_distance_table` over the destinations of table `t`,
      skipping the sender's own row and the destinations the sender does not
      know. */
  method RelaxThrough(t: Table, self: Node, sender: Node, snap: Table) returns (r: Table)
    requires sender != self
    requires forall d :: d in snap && d in t && d != sender ==> snap[d] != map[]
    ensures r == RelaxOne(SkipUnknownDest, t, self, sender, snap)
  {
    r := t;
    var rest := t.Keys;
    while rest != {}
      invariant RelaxedExcept(SkipUnknownDest, t, self, sender, snap, r, rest)
      decreases rest
    {
      r, rest := RelaxNext(t, self, sender, snap, r, rest);
    }
  }

  /** One pass of the loop of `update_distance_table`: relax one pending row. */
  method RelaxNext(t: Table, self: Node, sender: Node, snap: Table, r: Table, rest: set<Node>)
    returns (r': Table, rest': set<Node>)
    requires sender != self && rest != {}
    requires forall d :: d in snap && d in t && d != sender ==> snap[d] != map[]
    requires RelaxedExcept(SkipUnknownDest, t, self, sender, snap, r, rest)
    ensures RelaxedExcept(SkipUnknownDest, t, self, sender, snap, r', rest') && rest' < rest
  {
    var dest :| dest in rest;
    rest' := rest - {dest};
    SkipAt(t, self, sender, snap, dest);
    r' := r;
    if dest != sender && dest in snap {
      var m := MinValue(snap[dest]);
      r' := r[dest := r[dest][sender := Add(DiagOf(t, sender), m)]];
    }
  }

  // ---------------------------------------------------------------------------
  // The convergence loop of `main`: rounds of synchronous exchange

  /** The receiving half of a round: each queued snapshot is applied to its
      receiver in queue order, starting from the cleared flags; `anyChanged`
      records whether some receiver is left flagged. */
  method DeliverUpdates(net0: Net, cleared: map<Node, bool>, updates: seq<Update>)
    returns (tables: map<Node, Table>, flags: map<Node, bool>, anyChanged: bool)
    requires Shaped(net0) && Carried(updates, net0) && ToRouters(updates, net0)
    requires cleared.Keys == net0.tables.Keys && !AnyFlag(cleared)
    ensures Delivered(SkipUnknownDest, net0, updates, |updates|, tables, flags)
    ensures anyChanged == AnyFlag(flags)
  {
    tables, flags, anyChanged := net0.tables, cleared, false;
    DeliveredStart(SkipUnknownDest, net0, updates, cleared);
    var i := 0;
    while i < |updates|
      invariant 0 <= i <= |updates|
      invariant Delivered(SkipUnknownDest, net0, updates, i, tables, flags)
      invariant anyChanged == AnyFlag(flags)
    {
      tables, flags, anyChanged := DeliverNext(net0, updates, i, tables, flags, anyChanged);
      i := i + 1;
    }
  }

  /** One pass of the receiving loop: `routers[receiver].update_distance_table`
      and the check of the receiver's flag. */
  method DeliverNext(net0: Net, updates: seq<Update>, i: nat, tables: map<Node, Table>, flags: map<Node, bool>, anyBefore: bool)
    returns (tables': map<Node, Table>, flags': map<Node, bool>, anyChanged: bool)
    requires Shaped(net0) && Carried(updates, net0) && ToRouters(updates, net0) && i < |updates|
    requires Delivered(SkipUnknownDest, net0, updates, i, tables, flags) && anyBefore == AnyFlag(flags)
    ensures Delivered(SkipUnknownDest, net0, updates, i + 1, tables', flags') && anyChanged == AnyFlag(flags')
  {
    var u := updates[i];
    SnapshotUsable(SkipUnknownDest, net0, u.receiver, u.sender);
    var t, c := UpdateTable(u.receiver, tables[u.receiver], flags[u.receiver], u.sender, u.snap);
    AnyFlagRaise(flags, u.receiver, t != tables[u.receiver]);
    tables' := tables[u.receiver := t];
    flags' := flags[u.receiver := c];
    DeliveredStep(SkipUnknownDest, net0, updates, i, tables, flags, tables', flags');
    anyChanged := anyBefore;
    if c {
      anyChanged := true;
    }
  }

  /** One iteration of the convergence loop of `main`: the sending half, then the
      receiving half. The result is the order-free round, and the loop's
      `any_changed` says whether some router is left flagged. */
  method Round(net: Net, adj: Adjacency) returns (next: Net, anyChanged: bool)
    requires Shaped(net)
    ensures next == RoundOf(SkipUnknownDest, net, adj)
    ensures anyChanged == AnyFlag(next.flags)
  {
    var updates, cleared := CollectUpdates(net, adj, true);
    var tables, flags;
    tables, flags, anyChanged := DeliverUpdates(net, cleared, updates);
    RoundClosed(SkipUnknownDest, net, adj, updates, tables, flags);
    next := Net(tables, flags);
  }

  /** The convergence loop of `main`, run for at most `fuel` rounds: it stops
      after the first round that leaves no router flagged. When it stops that way
      the state is a fixed point of the round. */
  method Converge(net: Net, adj: Adjacency, fuel: nat) returns (final: Net, rounds: nat, converged: bool)
    requires Shaped(net)
    ensures rounds <= fuel && final == Rounds(SkipUnknownDest, net, adj, rounds) && Shaped(final)
    ensures converged ==> rounds > 0 && !AnyFlag(final.flags) && RoundOf(SkipUnknownDest, final, adj) == final
    ensures !converged ==> rounds == fuel
  {
    final, rounds, converged := net, 0, false;
    while rounds < fuel && !converged
      invariant rounds <= fuel && final == Rounds(SkipUnknownDest, net, adj, rounds) && Shaped(final)
      invariant converged ==> rounds > 0 && !AnyFlag(final.flags)
    {
      var anyChanged;
      RoundKeepsShape(SkipUnknownDest, final, adj);
      final, anyChanged := Round(final, adj);
      rounds := rounds + 1;
      converged := !anyChanged;
    }
    if converged {
      RoundQuiescent(SkipUnknownDest, final, adj);
    }
  }

  // ---------------------------------------------------------------------------
  // Start-up and the UPDATE section of `main`

  /** Every router freshly initialised over `names`, with its flag raised. */
  ghost function Reinitialised(names: set<Node>, adj: Adjacency): Net {
    Net(map n | n in names :: InitialTable(n, names, Links(adj, n)), map n | n in names :: true)
  }

  /** A freshly initialised network is well shaped and every router is flagged,
      so the next round sends every table. */
  lemma ReinitialisedShaped(names: set<Node>, adj: Adjacency)
    ensures Shaped(Reinitialised(names, adj))
    ensures forall n :: n in names ==> Reinitialised(names, adj).flags[n]
  {
    var net := Reinitialised(names, adj);
    forall n | n in net.tables
      ensures Square(net.tables[n], net.tables.Keys - {n})
    {
      InitialTableShape(n, names, Links(adj, n));
    }
  }

  /** The loop that calls `initialize_distance_table` on every router: a table
      whose keys are other routers is completely overwritten, so every router
      ends with the fresh table over `names` whatever it held before. */
  method InitializeAll(tables: map<Node, Table>, names: seq<Node>, adj: Adjacency) returns (net: Net)
    requires tables.Keys == Elems(names)
    requires forall n :: n in tables ==> tables[n].Keys <= Elems(names) - {n}
    ensures net == Reinitialised(Elems(names), adj)
  {
    var all := Elems(names);
    var ts, fs := tables, map n | n in tables :: false;
    var pending := all;
    while pending != {}
      invariant InitializedExcept(tables, all, adj, ts, fs, pending)
      decreases pending
    {
      ts, fs, pending := InitializeNext(tables, all, adj, ts, fs, pending);
    }
    ReinitialisedGather(all, adj, ts, fs);
    net := Net(ts, fs);
  }

  /** The re-initialisation loop has visited every router outside `pending`. */
  ghost predicate InitializedExcept(tables: map<Node, Table>, all: set<Node>, adj: Adjacency,
                                    ts: map<Node, Table>, fs: map<Node, bool>, pending: set<Node>) {
    && pending <= all && ts.Keys == all && fs.Keys == all
    && (forall n :: n in all && n !in pending ==> ts[n] == InitialTable(n, all, Links(adj, n)) && fs[n])
    && forall n :: n in pending ==> n in tables && ts[n] == tables[n]
  }

  /** One pass of the re-initialisation loop: `initialize_distance_table` on one
      router, whose old rows are all overwritten. */
  method InitializeNext(tables: map<Node, Table>, all: set<Node>, adj: Adjacency,
                        ts: map<Node, Table>, fs: map<Node, bool>, pending: set<Node>)
    returns (ts': map<Node, Table>, fs': map<Node, bool>, pending': set<Node>)
    requires pending != {} && forall n :: n in tables ==> tables[n].Keys <= all - {n}
    requires InitializedExcept(tables, all, adj, ts, fs, pending)
    ensures InitializedExcept(tables, all, adj, ts', fs', pending') && pending' < pending
  {
    var n :| n in pending;
    var init := InitialTable(n, all, Links(adj, n));
    InitialTableShape(n, all, Links(adj, n));
    OverwrittenBy(ts[n], init);
    ts' := ts[n := ts[n] + init];
    fs' := fs[n := true];
    pending' := pending - {n};
  }

  /** Overriding with a table that has every old key forgets the old table. */
  lemma OverwrittenBy(before: Table, init: Table)
    requires before.Keys <= init.Keys
    ensures before + init == init
  {
  }

  lemma ReinitialisedGather(all: set<Node>, adj: Adjacency, ts: map<Node, Table>, fs: map<Node, bool>)
    requires ts.Keys == all && fs.Keys == all
    requires forall n :: n in all ==> ts[n] == InitialTable(n, all, Links(adj, n)) && fs[n]
    ensures Net(ts, fs) == Reinitialised(all, adj)
  {
    var r := Reinitialised(all, adj);
    assert ts == r.tables;
    assert fs == r.flags;
  }

  /** The routers named by a batch of edge changes. */
  function Endpoints(cs: seq<EdgeChange>): set<Node>
    decreases |cs|
  {
    if cs == [] then {} else Endpoints(cs[..|cs| - 1]) + {cs[|cs| - 1].a, cs[|cs| - 1].b}
  }

  /** Start-up: a router per name, the initial topology read into the graph
      (endpoints that are not routers still enter the graph), then every table
      initialised. */
  method Startup(names: seq<Node>, cs: seq<EdgeChange>) returns (g: Graph, net: Net)
    requires forall i :: 0 <= i < |cs| ==> ValidChange(cs[i])
    ensures fresh(g) && g.adj == ApplyChanges(map[], cs, true)
    ensures net == Reinitialised(Elems(names), g.adj)
  {
    g := new Graph();
    g.ApplyEdgeChanges(cs, true);
    var empty := map n | n in Elems(names) :: map[];
    net := InitializeAll(empty, names, g.adj);
  }

  /** The UPDATE section of `main`: an endpoint that is not yet a router becomes
      one (with an empty table) and is appended to the names, the change is
      applied to the graph, and if any change was read the names are sorted and
      every router is re-initialised from scratch. */
  method UpdateSection(net: Net, names: seq<Node>, g: Graph, cs: seq<EdgeChange>)
    returns (net': Net, names': seq<Node>, made: bool)
    requires forall i :: 0 <= i < |cs| ==> ValidChange(cs[i])
    requires Shaped(net) && net.tables.Keys == Elems(names)
    modifies g
    ensures g.adj == ApplyChanges(old(g.adj), cs, true)
    ensures made == (cs != [])
    ensures made ==> SortedStrict(names') && Elems(names') == Elems(names) + Endpoints(cs)
    ensures made ==> net' == Reinitialised(Elems(names'), g.adj)
    ensures !made ==> net' == net && names' == names
  {
    ghost var adj0 := g.adj;
    var tables := net.tables;
    var grown := names;
    var i := 0;
    while i < |cs|
      invariant 0 <= i <= |cs|
      invariant g.adj == ApplyChanges(adj0, cs[..i], true)
      invariant Grown(names, cs, i, tables, grown)
    {
      tables, grown := UpdateLine(names, cs, i, tables, grown, g, adj0);
      i := i + 1;
    }
    assert cs[..|cs|] == cs;
    made := cs != [];
    if !made {
      return net, names, false;
    }
    names' := SortNames(Elems(grown));
    net' := InitializeAll(tables, names', g.adj);
  }

  /** The routers after the first `i` changes: the old ones with their tables,
      and each new endpoint with an empty table, its name appended. */
  ghost predicate Grown(names: seq<Node>, cs: seq<EdgeChange>, i: nat, tables: map<Node, Table>, grown: seq<Node>)
    requires i <= |cs|
  {
    && tables.Keys == Elems(grown) == Elems(names) + Endpoints(cs[..i])
    && forall n :: n in tables ==> tables[n].Keys <= Elems(names) - {n}
  }

  /** One line of the UPDATE section. */
  method UpdateLine(names: seq<Node>, cs: seq<EdgeChange>, i: nat, tables: map<Node, Table>, grown: seq<Node>,
                    g: Graph, ghost adj0: Adjacency)
    returns (tables': map<Node, Table>, grown': seq<Node>)
    requires i < |cs| && forall k :: 0 <= k < |cs| ==> ValidChange(cs[k])
    requires g.adj == ApplyChanges(adj0, cs[..i], true)
    requires Grown(names, cs, i, tables, grown)
    modifies g
    ensures g.adj == ApplyChanges(adj0, cs[..i + 1], true)
    ensures Grown(names, cs, i + 1, tables', grown')
  {
    tables', grown' := GrowTables(names, cs, i, tables, grown);
    ApplyChangesNext(adj0, cs, i, true);
    g.ApplyEdgeChange(cs[i], true);
  }

  /** The routers an UPDATE line creates: each endpoint without a router gets
      one, with an empty table. */
  method GrowTables(names: seq<Node>, cs: seq<EdgeChange>, i: nat, tables: map<Node, Table>, grown: seq<Node>)
    returns (tables': map<Node, Table>, grown': seq<Node>)
    requires i < |cs|
    requires Grown(names, cs, i, tables, grown)
    ensures Grown(names, cs, i + 1, tables', grown')
  {
    var c := cs[i];
    assert cs[..i + 1][..i] == cs[..i];
    assert Endpoints(cs[..i + 1]) == Endpoints(cs[..i]) + {c.a, c.b};
    tables', grown' := tables, grown;
    if c.a !in tables' {
      grown' := grown' + [c.a];
      tables' := tables'[c.a := map[]];
    }
    if c.b !in tables' {
      grown' := grown' + [c.b];
      tables' := tables'[c.b := map[]];
    }
  }
}
