/** What a run of rounds from start-up keeps true of every router's table in
    DistanceVector.py and test.py, whose rounds relax only existing cells:
    each direct-link cell holds the link's weight, a column with no link
    behind it stays infinite, and the column of a neighbour that has nothing
    left to send agrees with that neighbour's table. From these follows that
    the pass after the UPDATE section changes a table only together with one
    of its direct-link cells, which no round writes, so the first round of
    the second phase never reproduces the tables from before the pass. */
module Consistency {
  import opened Common
  import opened Topology
  import opened Relaxation
  import opened Exchange
  import Almost1

  /** Column `v` of table `t`, held by a router whose links are `links`: the
      diagonal cell is the direct link cost (infinity without a link), and
      without a link every cell of the column is infinite. */
  ghost predicate LinkColumn(t: Table, links: map<Node, nat>, v: Node) {
    && v in t && v in t[v] && t[v][v] == LinkCost(links, v)
    && (v !in links ==> forall d :: d in t && v in t[d] ==> t[d][v] == Inf)
  }

  /** Column `v` of `t` echoes `snap`, the table of router `v`: every cell off
      the diagonal is the direct cost to `v` plus `v`'s own minimum. */
  ghost predicate Echoes(t: Table, v: Node, snap: Table) {
    forall d :: d in t && d != v && v in t[d] ==> t[d][v] == Add(DiagOf(t, v), MinOr(snap, d))
  }

  /** The invariant of a run from start-up under the graph `adj`. */
  ghost predicate Consistent(net: Net, adj: Adjacency) {
    && Shaped(net)
    && (forall n, v :: n in net.tables && v in net.tables && v != n ==> LinkColumn(net.tables[n], Links(adj, n), v))
    && (forall n, v :: n in net.tables && v in net.tables && v in Links(adj, n) && !net.flags[v] ==>
          Echoes(net.tables[n], v, net.tables[v]))
  }

  /** At start-up every direct-link cell holds its link and every other cell
      is infinite; every router is flagged, so no column is yet owed an echo. */
  lemma StartedConsistent(names: set<Node>, adj: Adjacency)
    ensures Consistent(Almost1.Started(names, adj), adj)
  {
    var net := Almost1.Started(names, adj);
    Almost1.StartedShaped(names, adj);
    forall n, v | n in net.tables && v in net.tables && v != n
      ensures LinkColumn(net.tables[n], Links(adj, n), v)
    {
      Almost1.StartedTableCell(names, adj, n, v, v);
      forall d | d in net.tables[n] && v in net.tables[n][d]
        ensures v !in Links(adj, n) ==> net.tables[n][d][v] == Inf
      {
        Almost1.StartedTableCell(names, adj, n, d, v);
      }
    }
  }

  /** Cell [d][v] of router `n` after a round: written from `v`'s table when
      `v` advertised to `n` and the cell is off the diagonal, otherwise as
      before. */
  lemma RoundCell(net: Net, adj: Adjacency, n: Node, d: Node, v: Node)
    requires Shaped(net) && n in net.tables && d in net.tables[n] && v in net.tables[n][d]
    ensures RoundTable(ExistingColumn, net, adj, n)[d][v] ==
      if v != d && v in net.tables && net.flags[v] && n in Links(adj, v)
      then Add(DiagOf(net.tables[n], v), MinOr(net.tables[v], d))
      else net.tables[n][d][v]
  {
    var t := net.tables[n];
    var heard := Snapshots(net, Advertisers(net, adj, net.tables.Keys, n));
    RoundCellRelaxed(net, adj, n, d, v);
    HeardFrom(net, adj, n, v);
    RelaxedCellIs(t, n, heard, d, v);
    if v in heard {
      assert heard[v] == net.tables[v];
    }
  }

  /** A cell of a round's relaxations under the rule of DistanceVector.py and
      test.py: off the diagonal, a sender heard from writes its own minimum
      through the direct cost to it. */
  lemma RelaxedCellIs(t: Table, self: Node, inbox: map<Node, Table>, d: Node, v: Node)
    requires d in t && v in t[d]
    ensures RelaxedCell(ExistingColumn, t, self, inbox, d, v) ==
      if v in inbox && v != d then Add(DiagOf(t, v), MinOr(inbox[v], d)) else t[d][v]
  {
  }

  lemma RoundCellRelaxed(net: Net, adj: Adjacency, n: Node, d: Node, v: Node)
    requires n in net.tables && d in net.tables[n] && v in net.tables[n][d]
    ensures RoundTable(ExistingColumn, net, adj, n)[d][v] ==
      RelaxedCell(ExistingColumn, net.tables[n], n, Snapshots(net, Advertisers(net, adj, net.tables.Keys, n)), d, v)
  {
    var t := net.tables[n];
    var heard := Snapshots(net, Advertisers(net, adj, net.tables.Keys, n));
    var rt := RelaxAll(ExistingColumn, t, n, heard);
    assert RoundTable(ExistingColumn, net, adj, n) == rt;
    assert rt[d] == RelaxedRow(ExistingColumn, t, n, heard, d);
  }

  /** Router `n` hears in a round from exactly the flagged routers linked to it. */
  lemma HeardFrom(net: Net, adj: Adjacency, n: Node, v: Node)
    requires Shaped(net)
    ensures v in Snapshots(net, Advertisers(net, adj, net.tables.Keys, n)) <==>
      v in net.tables && net.flags[v] && n in Links(adj, v)
  {
  }

  /** A round on a symmetric graph keeps the invariant. */
  lemma RoundConsistent(net: Net, adj: Adjacency)
    requires Consistent(net, adj) && Symmetric(adj)
    ensures Consistent(RoundOf(ExistingColumn, net, adj), adj)
    ensures RoundOf(ExistingColumn, net, adj).tables.Keys == net.tables.Keys
  {
    var r := RoundOf(ExistingColumn, net, adj);
    RoundKeepsShape(ExistingColumn, net, adj);
    forall n, v | n in r.tables && v in r.tables && v != n
      ensures LinkColumn(r.tables[n], Links(adj, n), v)
    {
      RoundColumn(net, adj, n, v);
    }
    forall n, v | n in r.tables && v in r.tables && v in Links(adj, n) && !r.flags[v]
      ensures Echoes(r.tables[n], v, r.tables[v])
    {
      if v != n {
        RoundEcho(net, adj, n, v);
      }
    }
  }

  /** A round writes no diagonal, and a router with no link to `n` does not
      advertise to it, so its column stays infinite. */
  lemma RoundColumn(net: Net, adj: Adjacency, n: Node, v: Node)
    requires Consistent(net, adj) && Symmetric(adj)
    requires n in net.tables && v in net.tables && v != n
    ensures LinkColumn(RoundOf(ExistingColumn, net, adj).tables[n], Links(adj, n), v)
  {
    var r := RoundOf(ExistingColumn, net, adj);
    RoundKeepsShape(ExistingColumn, net, adj);
    assert LinkColumn(net.tables[n], Links(adj, n), v);
    assert r.tables[n] == RoundTable(ExistingColumn, net, adj, n);
    RoundCell(net, adj, n, v, v);
    if v !in Links(adj, n) {
      LinksSymmetric(adj, n, v);
      forall d | d in r.tables[n] && v in r.tables[n][d]
        ensures r.tables[n][d][v] == Inf
      {
        RoundCell(net, adj, n, d, v);
      }
    }
  }

  /** A neighbour left unflagged by a round has the table it started it
      with: if it was flagged, its advertisement has just written its column
      from that table; if not, the column echoed it already and was left
      alone. */
  lemma RoundEcho(net: Net, adj: Adjacency, n: Node, v: Node)
    requires Consistent(net, adj) && Symmetric(adj)
    requires n in net.tables && v in net.tables && v != n && v in Links(adj, n)
    requires !RoundOf(ExistingColumn, net, adj).flags[v]
    ensures Echoes(RoundOf(ExistingColumn, net, adj).tables[n], v, RoundOf(ExistingColumn, net, adj).tables[v])
  {
    var r := RoundOf(ExistingColumn, net, adj);
    var t := net.tables[n];
    RoundKeepsShape(ExistingColumn, net, adj);
    assert r.tables[v] == net.tables[v];
    LinksSymmetric(adj, n, v);
    assert r.tables[n] == RoundTable(ExistingColumn, net, adj, n);
    RoundCell(net, adj, n, v, v);
    forall d | d in r.tables[n] && d != v && v in r.tables[n][d]
      ensures r.tables[n][d][v] == Add(DiagOf(r.tables[n], v), MinOr(r.tables[v], d))
    {
      RoundCell(net, adj, n, d, v);
      if !net.flags[v] {
        assert Echoes(t, v, net.tables[v]);
      }
    }
  }

  /** Any number of rounds on a symmetric graph keeps the invariant and the
      set of routers. */
  lemma {:induction false} RoundsConsistent(net: Net, adj: Adjacency, k: nat)
    requires Consistent(net, adj) && Symmetric(adj)
    ensures Consistent(Rounds(ExistingColumn, net, adj, k), adj)
    ensures Rounds(ExistingColumn, net, adj, k).tables.Keys == net.tables.Keys
  {
    if k > 0 {
      var prev := Rounds(ExistingColumn, net, adj, k - 1);
      RoundsConsistent(net, adj, k - 1);
      RoundConsistent(prev, adj);
      assert Rounds(ExistingColumn, net, adj, k) == RoundOf(ExistingColumn, prev, adj);
    }
  }

  /** Every routing-table entry costs its row's minimum. */
  ghost predicate RoutesCost(net: Net, routes: map<Node, map<Node, Route>>) {
    && Almost1.RoutesFit(net, routes)
    && forall v, d :: v in routes && d in routes[v] ==> routes[v][d].cost == MinOf(net.tables[v][d])
  }

  /** Routing tables derived by `create_routing_table` cost their rows' minima. */
  lemma RoutingTablesCost(net: Net, routes: map<Node, map<Node, Route>>, orders: map<Node, seq<Node>>)
    requires Almost1.RoutesFit(net, routes) && orders.Keys == net.tables.Keys
    requires forall n :: n in net.tables ==> Almost1.RoutingTableOf(net.tables[n], orders[n], routes[n])
    ensures RoutesCost(net, routes)
  {
    forall v, d | v in routes && d in routes[v]
      ensures routes[v][d].cost == MinOf(net.tables[v][d])
    {
      assert Almost1.EarliestViaMin(net.tables[v][d], orders[v], routes[v][d]);
    }
  }

  /** In a fixed point of the round no router is flagged: a flag says that
      the round changed the router's table. */
  lemma FixedIsQuiet(net: Net, adj: Adjacency)
    requires net.flags.Keys == net.tables.Keys && RoundOf(ExistingColumn, net, adj) == net
    ensures !AnyFlag(net.flags)
  {
    forall v | v in net.flags
      ensures !net.flags[v]
    {
      assert RoundOf(ExistingColumn, net, adj).tables[v] == RoundTable(ExistingColumn, net, adj, v);
    }
  }

  /** The pass on router `n` of a state with no router flagged, consistent
      with the old graph `adj0`, seeded from routing tables derived from it, under the new
      graph `adj1`: it leaves the table as it was whenever it leaves every
      direct-link cell as it was. Equal diagonal cells mean the same links
      (an infinite one has no link behind it), a purged column was already
      infinite, and a seeded cell receives the value its column already
      echoes. */
  lemma PassKeepsTable(net: Net, adj0: Adjacency, adj1: Adjacency, routes: map<Node, map<Node, Route>>, n: Node)
    requires Consistent(net, adj0) && !AnyFlag(net.flags)
    requires RoutesCost(net, routes) && n in net.tables
    requires forall v :: v in net.tables && v != n ==>
      Almost1.PostUpdateTable(net, adj1, routes, n)[v][v] == net.tables[n][v][v]
    ensures Almost1.PostUpdateTable(net, adj1, routes, n) == net.tables[n]
  {
    var t := net.tables[n];
    var p := Almost1.PostUpdateTable(net, adj1, routes, n);
    forall d, v | d in t && v in t[d]
      ensures p[d][v] == t[d][v]
    {
      PassKeepsCell(net, adj0, adj1, routes, n, d, v);
    }
    TablesEqual(p, t);
  }

  lemma PassKeepsCell(net: Net, adj0: Adjacency, adj1: Adjacency, routes: map<Node, map<Node, Route>>,
                      n: Node, d: Node, v: Node)
    requires Consistent(net, adj0) && !AnyFlag(net.flags)
    requires RoutesCost(net, routes) && n in net.tables && d in net.tables[n] && v in net.tables[n][d]
    requires Almost1.PostUpdateTable(net, adj1, routes, n)[v][v] == net.tables[n][v][v]
    ensures Almost1.PostUpdateTable(net, adj1, routes, n)[d][v] == net.tables[n][d][v]
  {
    var t := net.tables[n];
    var l0, l1 := Links(adj0, n), Links(adj1, n);
    assert Square(t, net.tables.Keys - {n});
    assert LinkColumn(t, l0, v);
    PostUpdateCell(net, adj1, routes, n, v, v);
    PostUpdateCell(net, adj1, routes, n, d, v);
    if v !in l1 {
      assert v !in l0;
    } else if d != v {
      assert v in l0 && l0[v] == l1[v];
      EchoedCell(net, adj0, routes, n, d, v);
    }
  }

  /** With no router flagged, a cell in a neighbour's column holds the link
      weight plus the neighbour's route cost. */
  lemma EchoedCell(net: Net, adj: Adjacency, routes: map<Node, map<Node, Route>>, n: Node, d: Node, v: Node)
    requires Consistent(net, adj) && !AnyFlag(net.flags) && RoutesCost(net, routes)
    requires n in net.tables && d in net.tables[n] && v in net.tables[n][d] && d != v && v in Links(adj, n)
    ensures v in routes && d in routes[v]
    ensures net.tables[n][d][v] == Add(Fin(Links(adj, n)[v]), routes[v][d].cost)
  {
    var t := net.tables[n];
    assert Square(t, net.tables.Keys - {n});
    assert LinkColumn(t, Links(adj, n), v);
    assert !net.flags[v];
    assert Echoes(t, v, net.tables[v]);
    assert d in net.tables[v] by {
      assert Square(net.tables[v], net.tables.Keys - {v});
    }
  }

  /** Cell [d][v] of router `n` after the pass under the graph `adj`: a
      column without a link is infinite, a neighbour's diagonal holds the
      link weight, and every other cell of a neighbour's column holds the
      link weight plus the neighbour's route cost. */
  lemma PostUpdateCell(net: Net, adj: Adjacency, routes: map<Node, map<Node, Route>>, n: Node, d: Node, v: Node)
    requires Shaped(net) && Almost1.RoutesFit(net, routes)
    requires n in net.tables && d in net.tables[n] && v in net.tables[n][d]
    ensures var links := Links(adj, n);
      Almost1.PostUpdateTable(net, adj, routes, n)[d][v] ==
        if v !in links then Inf
        else if v == d then Fin(links[v])
        else Add(Fin(links[v]), routes[v][d].cost)
  {
    var t := net.tables[n];
    var all := net.tables.Keys;
    var links := Links(adj, n);
    var purge := all - {n} - links.Keys;
    var seeds := Almost1.Seeds(all, n, links, routes);
    assert v in all - {n} && d in all - {n} by {
      assert Square(t, all - {n});
    }
    SeededResyncCell(t, n, links, purge, seeds, d, v);
    assert Almost1.PostUpdateTable(net, adj, routes, n)[d][v] == Seeded(Resync(t, links, purge), n, seeds)[d][v];
    if v in links {
      SeedsAt(all, n, links, routes, v);
      assert routes[v].Keys == all - {v} by {
        assert Square(net.tables[v], all - {v});
      }
    }
  }

  /** A neighbour that is a router, with a routing table, seeds the pass. */
  lemma SeedsAt(routers: set<Node>, self: Node, links: map<Node, nat>, routes: map<Node, map<Node, Route>>, v: Node)
    requires v in routers && v in links && v != self && v in routes
    ensures v in Almost1.Seeds(routers, self, links, routes) && Almost1.Seeds(routers, self, links, routes)[v] == routes[v]
  {
  }

  /** A cell after the resynchronisation and then the seeding. */
  lemma SeededResyncCell(t: Table, self: Node, links: map<Node, nat>, purge: set<Node>,
                         seeds: map<Node, map<Node, Route>>, d: Node, v: Node)
    requires d in t && v in t[d] && v in t && v in t[v]
    ensures Seeded(Resync(t, links, purge), self, seeds)[d][v] ==
      var resynced := if v in purge then Inf else if v == d && d in links then Fin(links[d]) else t[d][v];
      var diag := if v in purge then Inf else if v in links then Fin(links[v]) else t[v][v];
      if v in seeds && d in seeds[v] && d != self then Add(diag, seeds[v][d].cost) else resynced
  {
    var r1 := Resync(t, links, purge);
    assert Seeded(r1, self, seeds)[d][v] == SeedValue(r1, self, seeds, d, v);
  }

  /** An UPDATE section that leaves the graph as it was: after a first phase
      that stopped in a fixed point of the round, the pass changes no table,
      so the second phase does not run. */
  lemma NoOpPass(net: Net, adj: Adjacency, routes: map<Node, map<Node, Route>>, seeded: Net)
    requires Consistent(net, adj) && !AnyFlag(net.flags) && RoutesCost(net, routes)
    requires seeded.tables == Almost1.PostUpdated(net, adj, routes).tables
    ensures seeded.tables == net.tables
  {
    PostUpdatedAt(net, adj, routes, seeded);
    forall n | n in net.tables
      ensures seeded.tables[n] == net.tables[n]
    {
      NoOpDiagonals(net, adj, routes, n);
      PassKeepsTable(net, adj, adj, routes, n);
    }
    MapsEqual(seeded.tables, net.tables);
  }

  /** Under an unchanged graph the pass writes every direct-link cell with
      the value it already holds. */
  lemma NoOpDiagonals(net: Net, adj: Adjacency, routes: map<Node, map<Node, Route>>, n: Node)
    requires Consistent(net, adj) && RoutesCost(net, routes) && n in net.tables
    ensures forall v :: v in net.tables && v != n ==>
      Almost1.PostUpdateTable(net, adj, routes, n)[v][v] == net.tables[n][v][v]
  {
    forall v | v in net.tables && v != n
      ensures Almost1.PostUpdateTable(net, adj, routes, n)[v][v] == net.tables[n][v][v]
    {
      assert LinkColumn(net.tables[n], Links(adj, n), v);
      PostUpdateCell(net, adj, routes, n, v, v);
    }
  }

  /** After a first phase that stopped in a fixed point of the round, the
      first round of the second phase brings back the tables from before the
      pass only if the pass changed no table: a changed table differs in a
      direct-link cell, and no round writes one. */
  lemma PassUndone(net: Net, adj0: Adjacency, adj1: Adjacency, routes: map<Node, map<Node, Route>>, seeded: Net)
    requires Consistent(net, adj0) && !AnyFlag(net.flags) && RoutesCost(net, routes)
    requires Shaped(seeded) && seeded.tables == Almost1.PostUpdated(net, adj1, routes).tables
    ensures RoundOf(ExistingColumn, seeded, adj1).tables == net.tables ==> seeded.tables == net.tables
  {
    PostUpdatedAt(net, adj1, routes, seeded);
    RoundTables(seeded, adj1);
    if RoundOf(ExistingColumn, seeded, adj1).tables == net.tables {
      PassUndoneAll(net, adj0, adj1, routes, seeded);
    }
  }

  lemma PostUpdatedAt(net: Net, adj: Adjacency, routes: map<Node, map<Node, Route>>, seeded: Net)
    requires Shaped(net) && seeded.tables == Almost1.PostUpdated(net, adj, routes).tables
    ensures seeded.tables.Keys == net.tables.Keys
    ensures forall n :: n in net.tables ==> seeded.tables[n] == Almost1.PostUpdateTable(net, adj, routes, n)
  {
    forall n | n in net.tables
      ensures seeded.tables[n] == Almost1.PostUpdateTable(net, adj, routes, n)
    {
      Almost1.PostUpdateTableSquare(net, adj, routes, n);
    }
  }

  lemma RoundTables(net: Net, adj: Adjacency)
    ensures RoundOf(ExistingColumn, net, adj).tables.Keys == net.tables.Keys
    ensures forall n :: n in net.tables ==> RoundOf(ExistingColumn, net, adj).tables[n] == RoundTable(ExistingColumn, net, adj, n)
  {
  }

  lemma PassUndoneAll(net: Net, adj0: Adjacency, adj1: Adjacency, routes: map<Node, map<Node, Route>>, seeded: Net)
    requires Consistent(net, adj0) && !AnyFlag(net.flags) && RoutesCost(net, routes)
    requires Shaped(seeded) && seeded.tables.Keys == net.tables.Keys
    requires forall n :: n in net.tables ==> seeded.tables[n] == Almost1.PostUpdateTable(net, adj1, routes, n)
    requires forall n :: n in net.tables ==> RoundTable(ExistingColumn, seeded, adj1, n) == net.tables[n]
    ensures seeded.tables == net.tables
  {
    forall n | n in net.tables
      ensures seeded.tables[n] == net.tables[n]
    {
      PassUndoneAt(net, adj0, adj1, routes, seeded, n);
    }
    MapsEqual(seeded.tables, net.tables);
  }

  /** Router `n`'s part: a round writes no diagonal, so if it brings back
      `n`'s table from before the pass, the pass left every direct-link cell
      of it as it was, and hence the whole table. */
  lemma PassUndoneAt(net: Net, adj0: Adjacency, adj1: Adjacency, routes: map<Node, map<Node, Route>>, seeded: Net, n: Node)
    requires Consistent(net, adj0) && !AnyFlag(net.flags) && RoutesCost(net, routes)
    requires Shaped(seeded) && n in net.tables && n in seeded.tables
    requires seeded.tables[n] == Almost1.PostUpdateTable(net, adj1, routes, n)
    requires RoundTable(ExistingColumn, seeded, adj1, n) == net.tables[n]
    ensures seeded.tables[n] == net.tables[n]
  {
    forall v | v in net.tables && v != n
      ensures Almost1.PostUpdateTable(net, adj1, routes, n)[v][v] == net.tables[n][v][v]
    {
      RoundCell(seeded, adj1, n, v, v);
    }
    PassKeepsTable(net, adj0, adj1, routes, n);
  }
}
