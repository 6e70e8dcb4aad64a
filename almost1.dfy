/** almost1.py: every router starts from an all-infinite table over the other
    routers and takes its direct links from the graph; a flag is raised only by
    a cell that actually changes; a round has converged when no table differs
    from its copy taken at the round's start; after a topology change every
    router is resynchronised and then seeded from its neighbours' routing
    tables. */
module Almost1 {
  import opened Common
  import opened Topology
  import opened Relaxation
  import opened Exchange

  // ---------------------------------------------------------------------------
  // The table `__init__` builds

  /** `other_nodes`: the names other than `self`, in input order. */
  function Others(names: seq<Node>, self: Node): (r: seq<Node>)
    ensures Elems(r) == Elems(names) - {self}
    ensures Distinct(names) ==> Distinct(r)
    decreases |names|
  {
    if names == [] then []
    else
      var prefix := names[..|names| - 1];
      var x := names[|names| - 1];
      assert names == prefix + [x];
      assert Elems(names) == Elems(prefix) + {x};
      var p := Others(prefix, self);
      OthersSnoc(names, prefix, x, p);
      if x == self then p else p + [x]
  }

  /** How `Others` grows by one name at the end. */
  lemma OthersSnoc(names: seq<Node>, prefix: seq<Node>, x: Node, p: seq<Node>)
    requires names == prefix + [x]
    requires Elems(p) <= Elems(prefix) && (Distinct(prefix) ==> Distinct(p))
    ensures Distinct(names) ==> Distinct(prefix) && x !in Elems(prefix)
    ensures Elems(p + [x]) == Elems(p) + {x}
    ensures Distinct(names) ==> Distinct(p + [x])
  {
    assert Elems(names) == Elems(prefix) + {x};
    if Distinct(names) {
      forall i | 0 <= i < |prefix|
        ensures prefix[i] != x
      {
        assert prefix[i] == names[i] && x == names[|prefix|];
      }
      forall i | 0 <= i < |p|
        ensures p[i] != x
      {
        assert p[i] in Elems(prefix);
      }
      assert Distinct(prefix) by {
        forall i, j | 0 <= i < j < |prefix|
          ensures prefix[i] != prefix[j]
        {
          assert prefix[i] == names[i] && prefix[j] == names[j];
        }
      }
      var q := p + [x];
      forall i, j | 0 <= i < j < |q|
        ensures q[i] != q[j]
      {
        if j == |p| {
          assert q[i] == p[i];
        } else {
          assert q[i] == p[i] && q[j] == p[j];
        }
      }
    }
  }

  /** The table whose rows and vias are exactly `others`, every cell infinite. */
  ghost function InfTable(others: set<Node>): (r: Table)
    ensures Square(r, others)
  {
    map d | d in others :: map v | v in others :: Inf
  }

  /** A square table that is infinite everywhere is the all-infinite table. */
  lemma AllInfIsInfTable(t: Table, keys: set<Node>)
    requires Square(t, keys) && forall d, v :: d in t && v in t[d] ==> t[d][v] == Inf
    ensures t == InfTable(keys)
  {
    TablesEqual(t, InfTable(keys));
  }

  /** The inner loop of `__init__`: a row of infinities over `order`. */
  method InfRow(order: seq<Node>) returns (row: Row)
    ensures row.Keys == Elems(order) && forall v :: v in row ==> row[v] == Inf
  {
    row := map[];
    var j := 0;
    while j < |order|
      invariant 0 <= j <= |order|
      invariant row.Keys == Elems(order[..j]) && forall v :: v in row ==> row[v] == Inf
    {
      assert order[..j + 1] == order[..j] + [order[j]];
      row := row[order[j] := Inf];
      j := j + 1;
    }
    assert order[..|order|] == order;
  }

  /** The nested loop of `__init__`: a row of infinities for every router in
      `order`, over the vias in `order`. */
  method BuildInfTable(order: seq<Node>) returns (t: Table)
    ensures Square(t, Elems(order))
    ensures forall d, v :: d in t && v in t[d] ==> t[d][v] == Inf
  {
    t := map[];
    var i := 0;
    while i < |order|
      invariant 0 <= i <= |order|
      invariant t.Keys == Elems(order[..i])
      invariant forall d :: d in t ==> t[d].Keys == Elems(order)
      invariant forall d, v :: d in t && v in t[d] ==> t[d][v] == Inf
    {
      assert order[..i + 1] == order[..i] + [order[i]];
      var row := InfRow(order);
      t := t[order[i] := row];
      i := i + 1;
    }
    assert order[..|order|] == order;
  }

  // ---------------------------------------------------------------------------
  // Routing entries: the first strictly smaller cost in table order

  /** The routing-table entry `create_routing_table` promises for a row whose
      vias are listed, in the table's own order, by `order`: the minimum cost;
      no next hop exactly when that is infinite; otherwise the first via in
      `order` attaining it, every earlier via costing strictly more. */
  ghost predicate EarliestViaMin(row: Row, order: seq<Node>, r: Route) {
    && r.cost == MinOf(row)
    && (r.nextHop.None? <==> r.cost == Inf)
    && (r.nextHop.Some? ==> r.nextHop.value in order && r.nextHop.value in row && row[r.nextHop.value] == r.cost)
    && forall i, k :: 0 <= i < k < |order| && r.nextHop == Some(order[k]) ==> order[i] in row && Less(r.cost, row[order[i]])
  }

  /** The entry is determined by the row and the order, so deriving the routing
      table again from an unchanged table gives the same routes. */
  lemma EarliestViaMinUnique(row: Row, order: seq<Node>, r1: Route, r2: Route)
    requires EarliestViaMin(row, order, r1) && EarliestViaMin(row, order, r2)
    ensures r1 == r2
  {
    if r1.nextHop.Some? && r2.nextHop.Some? {
      var k1 :| 0 <= k1 < |order| && order[k1] == r1.nextHop.value;
      var k2 :| 0 <= k2 < |order| && order[k2] == r2.nextHop.value;
    }
  }

  /** The scan of `create_routing_table` over a row whose vias are listed once
      each by `order` yields the entry `EarliestViaMin` describes. */
  lemma FirstMinIsEarliest(row: Row, order: seq<Node>)
    requires Elems(order) == row.Keys && Distinct(order)
    ensures forall i :: 0 <= i < |order| ==> order[i] in row
    ensures EarliestViaMin(row, order, FirstMin(row, order))
  {
    forall i | 0 <= i < |order|
      ensures order[i] in row
    {
      assert order[i] in Elems(order);
    }
    var r := FirstMin(row, order);
    FirstMinIsMin(row, order);
    forall i, k | 0 <= i < k < |order| && r.nextHop == Some(order[k])
      ensures Less(r.cost, row[order[i]])
    {
      FirstMinIsFirst(row, order, k);
    }
  }

  /** A routing table for `t` scanned in the order `order`: an entry per
      destination, each the earliest via of least cost. */
  ghost predicate RoutingTableOf(t: Table, order: seq<Node>, routes: map<Node, Route>) {
    routes.Keys == t.Keys && forall d :: d in t ==> EarliestViaMin(t[d], order, routes[d])
  }

  /** The loops of `create_routing_table`: every destination gets the entry its
      row's scan picks (destinations are independent, so the order in which
      they are visited does not matter; the vias are scanned in table order). */
  method RoutesInOrder(t: Table, order: seq<Node>) returns (routes: map<Node, Route>)
    requires Distinct(order) && forall d :: d in t ==> t[d].Keys == Elems(order)
    ensures RoutingTableOf(t, order, routes)
  {
    routes := map[];
    var pending := t.Keys;
    while pending != {}
      invariant pending <= t.Keys && routes.Keys == t.Keys - pending
      invariant forall d :: d in routes ==> EarliestViaMin(t[d], order, routes[d])
      decreases pending
    {
      var dest :| dest in pending;
      FirstMinIsEarliest(t[dest], order);
      var r := ScanMin(t[dest], order);
      routes := routes[dest := r];
      pending := pending - {dest};
    }
  }

  // ---------------------------------------------------------------------------
  // `update_from_graph` on a table and its flag

  /** `update_from_graph` on router `self` holding `t` and `changed`, with links
      `links`, where `routers` names every router: each neighbour with a row
      gets its link weight on the diagonal, then the column of every other
      router that is not a neighbour becomes infinite; the flag is raised when a
      cell changed. Python reads each cell before writing it, so the cells
      written must exist. */
  method ResyncTable(self: Node, t: Table, changed: bool, links: map<Node, nat>, routers: set<Node>)
    returns (t': Table, changed': bool)
    requires forall d :: d in t && d in links ==> d in t[d]
    requires forall d, v :: d in t && v in routers && v != self && v !in links ==> v in t[d]
    ensures t' == Resync(t, links, routers - {self} - links.Keys)
    ensures changed' == (changed || t' != t)
  {
    var r := t;
    changed' := changed;
    var pending := links.Keys;
    assert links - pending == map[];
    TablesEqual(Resync(t, map[], {}), t);
    while pending != {}
      invariant pending <= links.Keys
      invariant r == Resync(t, links - pending, {})
      invariant changed' == (changed || r != t)
      decreases pending
    {
      r, changed', pending := DiagNext(t, links, r, changed, changed', pending);
    }
    assert links - pending == links;
    var left := routers;
    assert routers - left - {self} - links.Keys == {};
    while left != {}
      invariant left <= routers
      invariant r == Resync(t, links, routers - left - {self} - links.Keys)
      invariant changed' == (changed || r != t)
      decreases left
    {
      var v :| v in left;
      ghost var purged := routers - left - {self} - links.Keys;
      assert routers - (left - {v}) - {self} - links.Keys == if v != self && v !in links then purged + {v} else purged;
      r, changed' := PurgeNext(t, self, links, purged, v, r, changed, changed');
      left := left - {v};
    }
    assert routers - left == routers;
    t' := r;
  }

  /** One pass of the diagonal loop: one more neighbour's link weight. */
  method DiagNext(t: Table, links: map<Node, nat>, r: Table, c0: bool, c: bool, pending: set<Node>)
    returns (r': Table, c': bool, pending': set<Node>)
    requires pending != {} && pending <= links.Keys
    requires forall d :: d in t && d in links ==> d in t[d]
    requires r == Resync(t, links - pending, {}) && c == (c0 || r != t)
    ensures pending' < pending
    ensures r' == Resync(t, links - pending', {}) && c' == (c0 || r' != t)
  {
    var n :| n in pending;
    pending' := pending - {n};
    assert links - pending' == (links - pending)[n := links[n]];
    DiagStep(t, links - pending, n, links[n]);
    r', c' := r, c;
    if n in r {
      var cost := Fin(links[n]);
      var oldCost := r[n][n];
      CellWrite(t, r, n, n, cost);
      r' := r[n := r[n][n := cost]];
      if oldCost != cost {
        c' := true;
      }
    }
  }

  /** Setting one more diagonal adds one cell to the resynchronised table. */
  lemma DiagStep(t: Table, links: map<Node, nat>, n: Node, w: nat)
    requires n !in links && (n in t ==> n in t[n])
    ensures var r := Resync(t, links, {});
      && (n in t ==> r[n][n] == t[n][n])
      && Resync(t, links[n := w], {}) == if n in t then r[n := r[n][n := Fin(w)]] else r
  {
    var r := Resync(t, links, {});
    var r' := Resync(t, links[n := w], {});
    if n in t {
      assert r'[n] == r[n][n := Fin(w)];
    }
  }

  /** One pass of the non-neighbour loop: when `v` is another router and not a
      neighbour, its whole column becomes infinite (the columns are disjoint,
      so the order of the routers does not matter). */
  method PurgeNext(t: Table, self: Node, links: map<Node, nat>, ghost purged: set<Node>, v: Node,
                   r: Table, c0: bool, c: bool)
    returns (r': Table, c': bool)
    requires v != self && v !in links ==> forall d :: d in t ==> v in t[d]
    requires r == Resync(t, links, purged) && c == (c0 || r != t)
    ensures r' == Resync(t, links, if v != self && v !in links then purged + {v} else purged)
    ensures c' == (c0 || r' != t)
  {
    r', c' := r, c;
    if v != self && v !in links {
      var rows := t.Keys;
      ReplacedEnds(r', Resync(t, links, purged + {v}), r');
      while rows != {}
        invariant PurgedExcept(t, links, purged, v, r', rows)
        invariant c' == (c0 || r' != t)
        decreases rows
      {
        r', c', rows := PurgeCell(t, links, purged, v, r', c0, c', rows);
      }
      PurgedGather(t, links, purged, v, r');
    }
  }

  /** The purge of column `v` has reached every row outside `rows`. */
  ghost predicate PurgedExcept(t: Table, links: map<Node, nat>, purged: set<Node>, v: Node, r: Table, rows: set<Node>) {
    ReplacedExcept(Resync(t, links, purged), Resync(t, links, purged + {v}), r, rows)
  }

  /** One row of the purge of column `v`. */
  method PurgeCell(t: Table, links: map<Node, nat>, ghost purged: set<Node>, v: Node, r: Table, c0: bool, c: bool,
                   rows: set<Node>)
    returns (r': Table, c': bool, rows': set<Node>)
    requires v !in links && forall d :: d in t ==> v in t[d]
    requires rows != {} && PurgedExcept(t, links, purged, v, r, rows) && c == (c0 || r != t)
    ensures rows' < rows && PurgedExcept(t, links, purged, v, r', rows') && c' == (c0 || r' != t)
  {
    var dest :| dest in rows;
    rows' := rows - {dest};
    PurgeCellStep(t, links, purged, v, r, rows, dest);
    var oldCost := r[dest][v];
    CellWrite(t, r, dest, v, Inf);
    r' := r[dest := r[dest][v := Inf]];
    c' := c;
    if oldCost != Inf {
      c' := true;
    }
  }

  /** Writing infinity into row `dest` of column `v` moves the purge on by one row. */
  lemma PurgeCellStep(t: Table, links: map<Node, nat>, purged: set<Node>, v: Node, r: Table, rows: set<Node>, dest: Node)
    requires v !in links && dest in rows && forall d :: d in t ==> v in t[d]
    requires PurgedExcept(t, links, purged, v, r, rows)
    ensures dest in t && v in t[dest] && dest in r && v in r[dest]
    ensures r[dest][v] == Inf || r[dest][v] == t[dest][v]
    ensures PurgedExcept(t, links, purged, v, r[dest := r[dest][v := Inf]], rows - {dest})
  {
    var before := Resync(t, links, purged);
    var after := Resync(t, links, purged + {v});
    PurgeRow(t, links, purged, v, dest);
    ReplacedStep(before, after, r, rows, dest);
  }

  lemma PurgedGather(t: Table, links: map<Node, nat>, purged: set<Node>, v: Node, r: Table)
    requires PurgedExcept(t, links, purged, v, r, {})
    ensures r == Resync(t, links, purged + {v})
  {
    ReplacedEnds(Resync(t, links, purged), Resync(t, links, purged + {v}), r);
  }

  /** Purging column `v` in one row: the cell still holds its original value or
      infinity, and becomes infinite. */
  lemma PurgeRow(t: Table, links: map<Node, nat>, purged: set<Node>, v: Node, d: Node)
    requires d in t && v in t[d] && v !in links
    ensures var before := Resync(t, links, purged)[d];
      && (before[v] == Inf || before[v] == t[d][v])
      && Resync(t, links, purged + {v})[d] == before[v := Inf]
  {
  }

  // ---------------------------------------------------------------------------
  // `receive_update` on a table and its flag

  /** `receive_update` on router `self` holding `t` and `changed`: nothing when
      the sender has no row; otherwise each other destination's cell in the
      sender's column becomes the cost to the sender plus the sender's minimum
      for it (infinity when the sender has no row for it), and the flag is
      raised when a cell changed. Python indexes the sender's diagonal and
      column and takes `min` of the sender's rows it reads. */
  method ReceiveTable(self: Node, t: Table, changed: bool, sender: Node, snap: Table)
    returns (t': Table, changed': bool)
    requires sender in t ==> sender in t[sender] && forall d :: d in t && d != sender ==> sender in t[d]
    requires sender in t ==> forall d :: d in snap && d in t && d != sender ==> snap[d] != map[]
    ensures t' == RelaxOne(InfForUnknownDest, t, self, sender, snap)
    ensures changed' == (changed || t' != t)
  {
    if sender !in t {
      RelaxOneIdle(InfForUnknownDest, t, self, sender, snap);
      return t, changed;
    }
    var costToSender := t[sender][sender];
    var r := t;
    changed' := changed;
    var rest := t.Keys;
    while rest != {}
      invariant RelaxedExcept(InfForUnknownDest, t, self, sender, snap, r, rest)
      invariant changed' == (changed || r != t)
      decreases rest
    {
      r, changed', rest := ReceiveNext(t, self, sender, snap, costToSender, r, changed, changed', rest);
    }
    t' := r;
  }

  /** One pass of the loop of `receive_update`: one pending destination. */
  method ReceiveNext(t: Table, self: Node, sender: Node, snap: Table, costToSender: Cost,
                     r: Table, c0: bool, c: bool, rest: set<Node>)
    returns (r': Table, c': bool, rest': set<Node>)
    requires sender in t && sender in t[sender] && costToSender == t[sender][sender]
    requires forall d :: d in t && d != sender ==> sender in t[d]
    requires forall d :: d in snap && d in t && d != sender ==> snap[d] != map[]
    requires rest != {} && RelaxedExcept(InfForUnknownDest, t, self, sender, snap, r, rest) && c == (c0 || r != t)
    ensures rest' < rest
    ensures RelaxedExcept(InfForUnknownDest, t, self, sender, snap, r', rest') && c' == (c0 || r' != t)
  {
    var dest :| dest in rest;
    rest' := rest - {dest};
    RelaxedFlagStep(InfForUnknownDest, t, self, sender, snap, r, rest, dest, c0, c);
    r', c' := r, c;
    if dest != sender {
      var oldCost := r[dest][sender];
      var viaSender := Inf;
      if dest in snap {
        viaSender := MinValue(snap[dest]);
      }
      var newCost := Add(costToSender, viaSender);
      r' := r[dest := r[dest][sender := newCost]];
      if oldCost != newCost {
        c' := true;
      }
    }
  }

  // ---------------------------------------------------------------------------
  // `run_distance_vector`: rounds until no table changes

  /** The receiving loop of a round: each queued update is handed to the router
      of that name; an update addressed to a graph node that is not a router
      finds none and is dropped. */
  method DeliverUpdates(net0: Net, cleared: map<Node, bool>, updates: seq<Update>)
    returns (tables: map<Node, Table>, flags: map<Node, bool>)
    requires Shaped(net0) && Carried(updates, net0)
    requires cleared.Keys == net0.tables.Keys && !AnyFlag(cleared)
    ensures Delivered(InfForUnknownDest, net0, updates, |updates|, tables, flags)
  {
    tables, flags := net0.tables, cleared;
    DeliveredStart(InfForUnknownDest, net0, updates, cleared);
    var i := 0;
    while i < |updates|
      invariant 0 <= i <= |updates|
      invariant Delivered(InfForUnknownDest, net0, updates, i, tables, flags)
    {
      tables, flags := DeliverNext(net0, updates, i, tables, flags);
      i := i + 1;
    }
  }

  /** One pass of the receiving loop. */
  method DeliverNext(net0: Net, updates: seq<Update>, i: nat, tables: map<Node, Table>, flags: map<Node, bool>)
    returns (tables': map<Node, Table>, flags': map<Node, bool>)
    requires Shaped(net0) && Carried(updates, net0) && i < |updates|
    requires Delivered(InfForUnknownDest, net0, updates, i, tables, flags)
    ensures Delivered(InfForUnknownDest, net0, updates, i + 1, tables', flags')
  {
    var u := updates[i];
    if u.receiver in tables {
      SnapshotUsable(InfForUnknownDest, net0, u.receiver, u.sender);
      DeliveredSquare(InfForUnknownDest, net0, updates, i, tables, flags, u.receiver);
      var t, c := ReceiveTable(u.receiver, tables[u.receiver], flags[u.receiver], u.sender, u.snap);
      tables' := tables[u.receiver := t];
      flags' := flags[u.receiver := c];
      DeliveredStep(InfForUnknownDest, net0, updates, i, tables, flags, tables', flags');
    } else {
      DroppedStep(InfForUnknownDest, net0, updates, i, tables, flags);
      tables', flags' := tables, flags;
    }
  }

  /** One round: every flagged router sends a copy of its table to each of its
      neighbours and is cleared, then the copies are delivered in order. The
      result is the order-free round under almost1.py's relaxation. */
  method Round(net: Net, adj: Adjacency) returns (next: Net)
    requires Shaped(net)
    ensures next == RoundOf(InfForUnknownDest, net, adj)
  {
    var updates, cleared := CollectUpdates(net, adj, false);
    var tables, flags := DeliverUpdates(net, cleared, updates);
    RoundClosed(InfForUnknownDest, net, adj, updates, tables, flags);
    next := Net(tables, flags);
  }

  /** Every cell of `t` holds the same cost in `p`. */
  ghost predicate CellsAgree(t: Table, p: Table) {
    forall d, v :: d in t && v in t[d] ==> d in p && v in p[d] && p[d][v] == t[d][v]
  }

  /** For tables of the same shape, agreeing cell by cell is equality. */
  lemma CellsAgreeIsEqual(t: Table, p: Table)
    requires p.Keys == t.Keys && forall d :: d in t ==> p[d].Keys == t[d].Keys
    ensures CellsAgree(t, p) == (t == p)
  {
    if CellsAgree(t, p) {
      forall d | d in t
        ensures p[d] == t[d]
      {
      }
    }
  }

  /** The innermost loops of the convergence test for one router: compare
      every cell with the copy, stopping at the first difference. Python
      indexes the copy at every cell of the table. */
  method SameCells(t: Table, p: Table) returns (same: bool)
    requires forall d, v :: d in t && v in t[d] ==> d in p && v in p[d]
    ensures same == CellsAgree(t, p)
  {
    same := true;
    var rows := t.Keys;
    while rows != {} && same
      invariant rows <= t.Keys
      invariant same == forall d, v :: d in t && d !in rows && v in t[d] ==> p[d][v] == t[d][v]
      decreases rows
    {
      var dest :| dest in rows;
      var vias := t[dest].Keys;
      while vias != {} && same
        invariant vias <= t[dest].Keys
        invariant same == forall v :: v in t[dest] && v !in vias ==> p[dest][v] == t[dest][v]
        decreases vias
      {
        var via :| via in vias;
        if t[dest][via] != p[dest][via] {
          same := false;
        }
        vias := vias - {via};
      }
      rows := rows - {dest};
    }
  }

  /** The convergence test of `run_distance_vector`: a router without a copy,
      or a cell that differs from the copy, means not converged. */
  method Converged(tables: map<Node, Table>, prev: map<Node, Table>) returns (converged: bool)
    requires forall n, d, v :: n in tables && n in prev && d in tables[n] && v in tables[n][d] ==> d in prev[n] && v in prev[n][d]
    ensures converged == forall n :: n in tables ==> n in prev && CellsAgree(tables[n], prev[n])
  {
    converged := true;
    var pending := tables.Keys;
    while pending != {} && converged
      invariant pending <= tables.Keys
      invariant converged == forall n :: n in tables && n !in pending ==> n in prev && CellsAgree(tables[n], prev[n])
      decreases pending
    {
      var n :| n in pending;
      if n !in prev {
        converged := false;
      } else {
        converged := SameCells(tables[n], prev[n]);
      }
      pending := pending - {n};
    }
  }

  /** The loop that stores every router's table before a round. */
  method CopyTables(tables: map<Node, Table>) returns (prev: map<Node, Table>)
    ensures prev == tables
  {
    prev := map[];
    var pending := tables.Keys;
    while pending != {}
      invariant pending <= tables.Keys && prev.Keys == tables.Keys - pending
      invariant forall n :: n in prev ==> prev[n] == tables[n]
      decreases pending
    {
      var n :| n in pending;
      var copy := CopyTable(tables[n]);
      prev := prev[n := copy];
      pending := pending - {n};
    }
  }

  /** After a round the table comparison can index every cell, and it finds no
      difference exactly when the round left no router flagged: the test by
      comparison agrees with the flags. */
  lemma RoundConvergedIffQuiet(rule: Rule, net: Net, adj: Adjacency)
    requires Shaped(net)
    ensures var next := RoundOf(rule, net, adj);
      && (forall n, d, v :: n in next.tables && n in net.tables && d in next.tables[n] && v in next.tables[n][d] ==>
            d in net.tables[n] && v in net.tables[n][d])
      && ((forall n :: n in next.tables ==> n in net.tables && CellsAgree(next.tables[n], net.tables[n])) <==> !AnyFlag(next.flags))
  {
    var next := RoundOf(rule, net, adj);
    RoundKeepsShape(rule, net, adj);
    AgreeAllIsEqual(next, net);
    RoundFlagsAreChanges(rule, net, adj);
  }

  /** A router is flagged after a round exactly when its table changed. */
  lemma RoundFlagsAreChanges(rule: Rule, net: Net, adj: Adjacency)
    ensures var next := RoundOf(rule, net, adj);
      AnyFlag(next.flags) == exists n :: n in net.tables && next.tables[n] != net.tables[n]
  {
    var next := RoundOf(rule, net, adj);
    if AnyFlag(next.flags) {
      var n :| n in next.flags && next.flags[n];
      assert n in net.tables && next.tables[n] != net.tables[n];
    }
    if exists n :: n in net.tables && next.tables[n] != net.tables[n] {
      var n :| n in net.tables && next.tables[n] != net.tables[n];
      assert next.flags[n];
    }
  }

  /** One iteration of `run_distance_vector`: store the tables, run a round,
      and compare. */
  method RoundAndCompare(net: Net, adj: Adjacency) returns (next: Net, converged: bool)
    requires Shaped(net)
    ensures next == RoundOf(InfForUnknownDest, net, adj) && Shaped(next)
    ensures converged == !AnyFlag(next.flags)
  {
    var prev := CopyTables(net.tables);
    RoundKeepsShape(InfForUnknownDest, net, adj);
    RoundConvergedIffQuiet(InfForUnknownDest, net, adj);
    next := Round(net, adj);
    converged := Converged(next.tables, prev);
  }

  /** Round number `rounds + 1` of a run from `net`. */
  method RoundNumbered(net: Net, adj: Adjacency, cur: Net, ghost rounds: nat) returns (next: Net, converged: bool)
    requires cur == Rounds(InfForUnknownDest, net, adj, rounds) && Shaped(cur)
    ensures next == Rounds(InfForUnknownDest, net, adj, rounds + 1) && Shaped(next)
    ensures converged == !AnyFlag(next.flags)
  {
    next, converged := RoundAndCompare(cur, adj);
  }

  /** `run_distance_vector`, for at most `fuel` rounds: each round stores the
      tables, runs, and stops when no table changed. `t` is the returned round
      counter: on convergence it counts the rounds run, the last included, and
      the state is then a fixed point of the round. */
  method RunDistanceVector(net: Net, adj: Adjacency, fuel: nat) returns (final: Net, t: nat, converged: bool)
    requires Shaped(net)
    ensures Shaped(final)
    ensures converged ==> 1 <= t <= fuel && final == Rounds(InfForUnknownDest, net, adj, t)
    ensures converged ==> !AnyFlag(final.flags) && RoundOf(InfForUnknownDest, final, adj) == final
    ensures !converged ==> t == fuel + 1 && final == Rounds(InfForUnknownDest, net, adj, fuel)
  {
    final, t, converged := net, 1, false;
    ghost var rounds := 0;
    while !converged && t <= fuel
      invariant rounds <= fuel && final == Rounds(InfForUnknownDest, net, adj, rounds) && Shaped(final)
      invariant t == if converged then rounds else rounds + 1
      invariant converged ==> rounds > 0 && !AnyFlag(final.flags)
      decreases fuel - rounds
    {
      final, converged := RoundNumbered(net, adj, final, rounds);
      rounds := rounds + 1;
      if !converged {
        t := t + 1;
      }
    }
    if converged {
      RoundQuiescent(InfForUnknownDest, final, adj);
    }
  }

  // ---------------------------------------------------------------------------
  // Start-up

  /** Router `n`'s table at start-up: the all-infinite table over the other
      routers, resynchronised with the graph. */
  ghost function StartedTable(names: set<Node>, adj: Adjacency, n: Node): (r: Table)
    ensures Square(r, names - {n})
  {
    var links := Links(adj, n);
    Resync(InfTable(names - {n}), links, names - {n} - links.Keys)
  }

  /** Every router built by `__init__` over `names` and then resynchronised
      with the graph; all flags are raised. */
  ghost function Started(names: set<Node>, adj: Adjacency): Net {
    Net(map n | n in names :: StartedTable(names, adj, n), map n | n in names :: true)
  }

  /** In router `n`'s start-up table the diagonal holds the direct link
      (infinity without one) and every other cell is infinite. */
  lemma StartedTableCell(names: set<Node>, adj: Adjacency, n: Node, d: Node, v: Node)
    requires d in names && v in names && d != n && v != n
    ensures StartedTable(names, adj, n)[d][v] == if v == d then LinkCost(Links(adj, n), d) else Inf
  {
    var links := Links(adj, n);
    var t0 := InfTable(names - {n});
    assert t0[d][v] == Inf;
    assert StartedTable(names, adj, n)[d][v] == Resync(t0, links, names - {n} - links.Keys)[d][v];
  }

  /** Start-up leaves every table well shaped and every router flagged. */
  lemma StartedShaped(names: set<Node>, adj: Adjacency)
    ensures Shaped(Started(names, adj)) && forall n :: n in names ==> Started(names, adj).flags[n]
  {
    var net := Started(names, adj);
    assert net.tables.Keys == names && net.flags.Keys == names;
    forall n | n in names
      ensures Square(net.tables[n], names - {n})
    {
      var t := StartedTable(names, adj, n);
      assert net.tables[n] == t;
    }
  }

  /** The router list of start-up: a router per name, each with its
      all-infinite table. */
  method BuildRouters(names: seq<Node>) returns (tables: map<Node, Table>)
    ensures tables.Keys == Elems(names)
    ensures forall n :: n in tables ==> tables[n] == InfTable(Elems(names) - {n})
  {
    var all := Elems(names);
    tables := map[];
    var pending := all;
    while pending != {}
      invariant pending <= all && tables.Keys == all - pending
      invariant forall n :: n in tables ==> tables[n] == InfTable(all - {n})
      decreases pending
    {
      var n :| n in pending;
      var t := BuildInfTable(Others(names, n));
      AllInfIsInfTable(t, all - {n});
      tables := tables[n := t];
      pending := pending - {n};
    }
  }

  /** `update_from_graph` on every freshly built router (each router's update
      touches only its own table, so their order does not matter). */
  method ResyncRouters(all: set<Node>, tables: map<Node, Table>, adj: Adjacency) returns (resynced: map<Node, Table>)
    requires tables.Keys == all && forall n :: n in tables ==> tables[n] == InfTable(all - {n})
    ensures resynced == Started(all, adj).tables
  {
    resynced := tables;
    var pending := all;
    while pending != {}
      invariant ResyncedExcept(all, adj, resynced, pending)
      decreases pending
    {
      resynced, pending := ResyncRouter(all, adj, resynced, pending);
    }
    ResyncedGather(all, adj, resynced);
  }

  /** One router of the start-up resynchronisation. */
  method ResyncRouter(all: set<Node>, adj: Adjacency, resynced: map<Node, Table>, pending: set<Node>)
    returns (resynced': map<Node, Table>, pending': set<Node>)
    requires pending != {} && ResyncedExcept(all, adj, resynced, pending)
    ensures pending' < pending && ResyncedExcept(all, adj, resynced', pending')
  {
    var n :| n in pending;
    assert resynced[n] == InfTable(all - {n});
    var t, c := ResyncTable(n, resynced[n], true, Links(adj, n), all);
    resynced' := resynced[n := t];
    pending' := pending - {n};
  }

  /** Start-up has resynchronised every router outside `pending`. */
  ghost predicate ResyncedExcept(all: set<Node>, adj: Adjacency, resynced: map<Node, Table>, pending: set<Node>) {
    && pending <= all && resynced.Keys == all
    && (forall n :: n in pending ==> resynced[n] == InfTable(all - {n}))
    && forall n :: n in all && n !in pending ==> resynced[n] == StartedTable(all, adj, n)
  }

  lemma ResyncedGather(all: set<Node>, adj: Adjacency, resynced: map<Node, Table>)
    requires ResyncedExcept(all, adj, resynced, {})
    ensures resynced == Started(all, adj).tables
  {
  }

  /** Start-up: the initial edges added to the graph, a router per name, and
      `update_from_graph` on each of them. The initial section is taken to
      carry non-negative weights, and the names to be distinct: a repeated
      name gets two routers, of which only the first hears its neighbours
      while the last one's table is compared. */
  method Startup(names: seq<Node>, cs: seq<EdgeChange>) returns (g: Graph, net: Net)
    requires Distinct(names)
    requires forall i :: 0 <= i < |cs| ==> cs[i].weight >= 0
    ensures fresh(g) && g.adj == ApplyChanges(map[], cs, true)
    ensures net == Started(Elems(names), g.adj)
  {
    g := new Graph();
    g.ApplyEdgeChanges(cs, true);
    var tables := BuildRouters(names);
    var resynced := ResyncRouters(Elems(names), tables, g.adj);
    net := Net(resynced, map n | n in Elems(names) :: true);
  }

  // ---------------------------------------------------------------------------
  // After the UPDATE section: resynchronise, seed from neighbours, test

  /** Each routing table has an entry for exactly the rows of its router's
      table, as `create_routing_table` leaves it. */
  ghost predicate RoutesFit(net: Net, routes: map<Node, map<Node, Route>>) {
    routes.Keys == net.tables.Keys && forall n :: n in routes ==> routes[n].Keys == net.tables[n].Keys
  }

  /** The neighbours router `self` is seeded from, with their routing tables. */
  ghost function Seeds(routers: set<Node>, self: Node, links: map<Node, nat>, routes: map<Node, map<Node, Route>>)
    : map<Node, map<Node, Route>>
  {
    map v | v in routers && v in links && v != self && v in routes :: routes[v]
  }

  /** The seeding loop on router `self` holding `t` and `changed`, with links
      `links`, the routers' routing tables `routes` and the router names
      `routers`: for each neighbour `v` and each destination other than `self`
      in `v`'s routing table, cell [d][v] becomes the cost to `v` plus `v`'s
      route cost; the flag is raised when a cell changed. A routing table has no
      entry for its own router, so no diagonal is written, and distinct
      neighbours write distinct columns, so the order of the routers does not
      matter. */
  method SeedTable(self: Node, t: Table, changed: bool, links: map<Node, nat>,
                   routes: map<Node, map<Node, Route>>, routers: set<Node>)
    returns (t': Table, changed': bool)
    requires forall v :: v in Seeds(routers, self, links, routes) ==>
      v in t && v in t[v] && v !in routes[v] && forall d :: d in routes[v] && d != self ==> d in t && v in t[d]
    ensures t' == Seeded(t, self, Seeds(routers, self, links, routes))
    ensures changed' == (changed || t' != t)
  {
    var r := t;
    changed' := changed;
    var left := routers;
    assert Seeds(routers - left, self, links, routes) == map[];
    SeededNone(t, self);
    while left != {}
      invariant left <= routers
      invariant r == Seeded(t, self, Seeds(routers - left, self, links, routes))
      invariant changed' == (changed || r != t)
      decreases left
    {
      var v :| v in left;
      r, changed' := SeedNext(self, t, changed, links, routes, routers, left, v, r, changed');
      left := left - {v};
    }
    assert routers - left == routers;
    t' := r;
  }

  /** One router of the outer seeding loop: a neighbour other than `self`
      seeds its column, any other router is passed over. */
  method SeedNext(self: Node, t: Table, c0: bool, links: map<Node, nat>, routes: map<Node, map<Node, Route>>,
                  routers: set<Node>, left: set<Node>, v: Node, r: Table, c: bool)
    returns (r': Table, c': bool)
    requires forall v :: v in Seeds(routers, self, links, routes) ==>
      v in t && v in t[v] && v !in routes[v] && forall d :: d in routes[v] && d != self ==> d in t && v in t[d]
    requires v in left && left <= routers
    requires r == Seeded(t, self, Seeds(routers - left, self, links, routes)) && c == (c0 || r != t)
    ensures r' == Seeded(t, self, Seeds(routers - (left - {v}), self, links, routes)) && c' == (c0 || r' != t)
  {
    SeedsStep(routers, left, self, links, routes, v);
    r', c' := r, c;
    if v in links && v != self && v in routes {
      assert v in Seeds(routers, self, links, routes);
      r', c' := SeedColumn(t, self, Seeds(routers - left, self, links, routes), v, routes[v], r, c0, c);
    }
  }

  /** Passing router `v` adds its routing table to the seeds exactly when it is
      a neighbour other than `self`. */
  lemma SeedsStep(routers: set<Node>, left: set<Node>, self: Node, links: map<Node, nat>,
                  routes: map<Node, map<Node, Route>>, v: Node)
    requires v in left && left <= routers
    ensures v !in Seeds(routers - left, self, links, routes)
    ensures Seeds(routers - (left - {v}), self, links, routes) ==
      if v in links && v != self && v in routes then Seeds(routers - left, self, links, routes)[v := routes[v]]
      else Seeds(routers - left, self, links, routes)
  {
  }

  /** The inner loop of the seeding pass for one neighbour `v` with routing
      table `rv`. */
  method SeedColumn(t: Table, self: Node, ghost done: map<Node, map<Node, Route>>, v: Node, rv: map<Node, Route>,
                    r: Table, c0: bool, c: bool)
    returns (r': Table, c': bool)
    requires v !in done && v in t && v in t[v] && v !in rv
    requires forall d :: d in rv && d != self ==> d in t && v in t[d]
    requires r == Seeded(t, self, done) && c == (c0 || r != t)
    ensures r' == Seeded(t, self, done[v := rv]) && c' == (c0 || r' != t)
  {
    r', c' := r, c;
    SeededEmpty(t, self, done, v);
    var rest := rv.Keys;
    assert rv - rest == map[];
    while rest != {}
      invariant rest <= rv.Keys
      invariant r' == Seeded(t, self, done[v := rv - rest])
      invariant c' == (c0 || r' != t)
      decreases rest
    {
      r', c', rest := SeedCell(t, self, done, v, rv, r', c0, c', rest);
    }
    assert rv - rest == rv;
  }

  /** One destination of the inner seeding loop. The cost to `v` is read from
      the partial table, where it still holds its original value, since the
      seeding writes no diagonal. */
  method SeedCell(t: Table, self: Node, ghost done: map<Node, map<Node, Route>>, v: Node, rv: map<Node, Route>,
                  r: Table, c0: bool, c: bool, rest: set<Node>)
    returns (r': Table, c': bool, rest': set<Node>)
    requires v !in done && v in t && v in t[v] && v !in rv
    requires forall d :: d in rv && d != self ==> d in t && v in t[d]
    requires rest != {} && rest <= rv.Keys
    requires r == Seeded(t, self, done[v := rv - rest]) && c == (c0 || r != t)
    ensures rest' < rest
    ensures r' == Seeded(t, self, done[v := rv - rest']) && c' == (c0 || r' != t)
  {
    var dest :| dest in rest;
    rest' := rest - {dest};
    assert (rv - rest') - {dest} == rv - rest;
    SeededStep(t, self, done, v, rv - rest', dest);
    SeededDiag(t, self, done[v := rv - rest], v);
    r', c' := r, c;
    if dest != self {
      var costToNeighbor := r[v][v];
      var neighborToDest := rv[dest].cost;
      var oldCost := r[dest][v];
      var newCost := Add(costToNeighbor, neighborToDest);
      CellWrite(t, r, dest, v, newCost);
      r' := r[dest := r[dest][v := newCost]];
      if oldCost != newCost {
        c' := true;
      }
    }
  }

  /** The resynchronisation and the seeding write disjoint cells (purged columns
      are not neighbours' columns, and seeding writes no diagonal), so the
      seeding never undoes a change of the resynchronisation: the router's flag
      after both is raised exactly when its table differs from before. */
  lemma ResyncSeedFlag(t: Table, links: map<Node, nat>, purge: set<Node>, self: Node, seeds: map<Node, map<Node, Route>>)
    requires links.Keys !! purge
    requires forall v :: v in seeds ==> v in links && v !in seeds[v]
    ensures var t1 := Resync(t, links, purge);
      (t1 != t || Seeded(t1, self, seeds) != t1) == (Seeded(t1, self, seeds) != t)
  {
    var t1 := Resync(t, links, purge);
    var t2 := Seeded(t1, self, seeds);
    if t2 == t {
      forall d | d in t1
        ensures t1[d].Keys == t[d].Keys && forall v :: v in t1[d] ==> t1[d][v] == t[d][v]
      {
        forall v | v in t1[d]
          ensures t1[d][v] == t[d][v]
        {
          assert t2[d][v] == t[d][v];
        }
      }
      TablesEqual(t1, t);
    }
  }

  /** Router `n`'s table after the pass: resynchronised with the new graph,
      then seeded from its neighbours' routing tables. */
  ghost function PostUpdateTable(net: Net, adj: Adjacency, routes: map<Node, map<Node, Route>>, n: Node): (r: Table)
    requires n in net.tables
    ensures r.Keys == net.tables[n].Keys && forall d :: d in r ==> r[d].Keys == net.tables[n][d].Keys
  {
    var links := Links(adj, n);
    var all := net.tables.Keys;
    Seeded(Resync(net.tables[n], links, all - {n} - links.Keys), n, Seeds(all, n, links, routes))
  }

  /** Router `n`'s flag after the pass: raised when it was raised already or
      its table changed. */
  ghost function PostFlag(net: Net, adj: Adjacency, routes: map<Node, map<Node, Route>>, n: Node): bool
    requires n in net.tables
  {
    (n in net.flags && net.flags[n]) || PostUpdateTable(net, adj, routes, n) != net.tables[n]
  }

  /** The state after the pass: each router's table and flag as above. */
  ghost function PostUpdated(net: Net, adj: Adjacency, routes: map<Node, map<Node, Route>>): Net {
    Net(map n | n in net.tables :: PostUpdateTable(net, adj, routes, n),
        map n | n in net.tables :: PostFlag(net, adj, routes, n))
  }

  /** The pass keeps every table's shape. */
  lemma PostUpdatedShaped(net: Net, adj: Adjacency, routes: map<Node, map<Node, Route>>)
    requires Shaped(net)
    ensures Shaped(PostUpdated(net, adj, routes))
  {
    var p := PostUpdated(net, adj, routes);
    assert p.tables.Keys == net.tables.Keys && p.flags.Keys == net.tables.Keys;
    forall n | n in p.tables
      ensures Square(p.tables[n], p.tables.Keys - {n})
    {
      PostUpdateTableSquare(net, adj, routes, n);
    }
  }

  lemma PostUpdateTableSquare(net: Net, adj: Adjacency, routes: map<Node, map<Node, Route>>, n: Node)
    requires Shaped(net) && n in net.tables
    ensures PostUpdated(net, adj, routes).tables[n] == PostUpdateTable(net, adj, routes, n)
    ensures Square(PostUpdateTable(net, adj, routes, n), net.tables.Keys - {n})
  {
  }

  /** Run right after convergence, when no router is flagged, the pass's change
      test agrees with the flags: it finds a changed table exactly when some
      router is flagged. So when the program stops after a pass that changed
      nothing, a further round would change nothing either. */
  lemma PostUpdateTestMatchesFlags(net: Net, adj: Adjacency, routes: map<Node, map<Node, Route>>)
    requires net.flags.Keys == net.tables.Keys && !AnyFlag(net.flags)
    ensures var p := PostUpdated(net, adj, routes);
      (exists n :: n in net.tables && p.tables[n] != net.tables[n]) <==> AnyFlag(p.flags)
  {
    var p := PostUpdated(net, adj, routes);
    if exists n :: n in net.tables && p.tables[n] != net.tables[n] {
      var n :| n in net.tables && p.tables[n] != net.tables[n];
      assert p.flags[n];
    }
    if AnyFlag(p.flags) {
      var n :| n in p.flags && p.flags[n];
      assert !net.flags[n];
    }
  }

  /** The pass over every router after the UPDATE section (each router's
      routing table is the one it last derived), then the test whether any
      table differs from its copy taken before the pass. */
  method PostUpdate(net: Net, adj: Adjacency, routes: map<Node, map<Node, Route>>)
    returns (net': Net, anyChanged: bool)
    requires Shaped(net) && RoutesFit(net, routes)
    ensures net' == PostUpdated(net, adj, routes)
    ensures anyChanged == exists n :: n in net.tables && net'.tables[n] != net.tables[n]
  {
    var prev := CopyTables(net.tables);
    net' := PostUpdateAll(net, adj, routes);
    PostUpdatedShaped(net, adj, routes);
    anyChanged := AnyTableChanged(net', net, prev);
  }

  /** The test after the pass: compare every router's table with its copy. */
  method AnyTableChanged(a: Net, b: Net, prev: map<Node, Table>) returns (changed: bool)
    requires Shaped(a) && Shaped(b) && a.tables.Keys == b.tables.Keys && prev == b.tables
    ensures changed == exists n :: n in b.tables && a.tables[n] != b.tables[n]
  {
    AgreeAllIsEqual(a, b);
    var same := Converged(a.tables, prev);
    changed := !same;
  }

  /** For two networks of the same routers and well-shaped tables, the
      comparison can index every cell, and agreeing cell by cell everywhere is
      equality everywhere. */
  lemma AgreeAllIsEqual(a: Net, b: Net)
    requires Shaped(a) && Shaped(b) && a.tables.Keys == b.tables.Keys
    ensures forall n, d, v :: n in a.tables && n in b.tables && d in a.tables[n] && v in a.tables[n][d] ==>
      d in b.tables[n] && v in b.tables[n][d]
    ensures (forall n :: n in a.tables ==> n in b.tables && CellsAgree(a.tables[n], b.tables[n])) ==
      !exists n :: n in b.tables && a.tables[n] != b.tables[n]
  {
    forall n | n in a.tables
      ensures CellsAgree(a.tables[n], b.tables[n]) == (a.tables[n] == b.tables[n])
    {
      CellsAgreeIsEqual(a.tables[n], b.tables[n]);
    }
  }

  /** The loop of the pass over every router. */
  method PostUpdateAll(net: Net, adj: Adjacency, routes: map<Node, map<Node, Route>>) returns (net': Net)
    requires Shaped(net) && RoutesFit(net, routes)
    ensures net' == PostUpdated(net, adj, routes)
  {
    ghost var post := PostUpdated(net, adj, routes);
    assert post.tables.Keys == net.tables.Keys && post.flags.Keys == net.flags.Keys;
    ReplacedEnds(net.tables, post.tables, net.tables);
    ReplacedEnds(net.flags, post.flags, net.flags);
    var tables, flags := net.tables, net.flags;
    var pending := net.tables.Keys;
    while pending != {}
      invariant ReplacedExcept(net.tables, post.tables, tables, pending)
      invariant ReplacedExcept(net.flags, post.flags, flags, pending)
      decreases pending
    {
      var n :| n in pending;
      tables, flags := PostUpdateNext(net, adj, routes, tables, flags, pending, n);
      pending := pending - {n};
    }
    ReplacedEnds(net.tables, post.tables, tables);
    ReplacedEnds(net.flags, post.flags, flags);
    net' := Net(tables, flags);
    assert net' == post;
  }

  /** One pass of the loop, on router `n`. */
  method PostUpdateNext(net: Net, adj: Adjacency, routes: map<Node, map<Node, Route>>,
                        tables: map<Node, Table>, flags: map<Node, bool>, pending: set<Node>, n: Node)
    returns (tables': map<Node, Table>, flags': map<Node, bool>)
    requires Shaped(net) && RoutesFit(net, routes) && n in pending
    requires ReplacedExcept(net.tables, PostUpdated(net, adj, routes).tables, tables, pending)
    requires ReplacedExcept(net.flags, PostUpdated(net, adj, routes).flags, flags, pending)
    ensures ReplacedExcept(net.tables, PostUpdated(net, adj, routes).tables, tables', pending - {n})
    ensures ReplacedExcept(net.flags, PostUpdated(net, adj, routes).flags, flags', pending - {n})
  {
    ghost var post := PostUpdated(net, adj, routes);
    var t, f := PostUpdateRouter(net, adj, routes, n);
    ReplacedStep(net.tables, post.tables, tables, pending, n);
    ReplacedStep(net.flags, post.flags, flags, pending, n);
    tables', flags' := tables[n := t], flags[n := f];
  }

  /** Router `n`'s part of the pass: `update_from_graph`, then its seeding. */
  method PostUpdateRouter(net: Net, adj: Adjacency, routes: map<Node, map<Node, Route>>, n: Node)
    returns (t': Table, changed': bool)
    requires Shaped(net) && RoutesFit(net, routes) && n in net.tables
    ensures t' == PostUpdated(net, adj, routes).tables[n] && changed' == PostUpdated(net, adj, routes).flags[n]
  {
    var all := net.tables.Keys;
    var links := Links(adj, n);
    ResyncFits(net, n, links);
    var t1, f1 := ResyncTable(n, net.tables[n], net.flags[n], links, all);
    SeedsFit(net, routes, n, links, t1);
    t', changed' := SeedTable(n, t1, f1, links, routes, all);
    PostUpdateRouterIs(net, adj, routes, n, t1, f1, t', changed');
  }

  /** The resynchronisation followed by the seeding is the pass on router `n`. */
  lemma PostUpdateRouterIs(net: Net, adj: Adjacency, routes: map<Node, map<Node, Route>>, n: Node,
                           t1: Table, f1: bool, t2: Table, f2: bool)
    requires n in net.tables && n in net.flags
    requires var links := Links(adj, n);
      t1 == Resync(net.tables[n], links, net.tables.Keys - {n} - links.Keys) && f1 == (net.flags[n] || t1 != net.tables[n])
    requires t2 == Seeded(t1, n, Seeds(net.tables.Keys, n, Links(adj, n), routes)) && f2 == (f1 || t2 != t1)
    requires forall v :: v in Seeds(net.tables.Keys, n, Links(adj, n), routes) ==>
      v in Links(adj, n) && v !in Seeds(net.tables.Keys, n, Links(adj, n), routes)[v]
    ensures t2 == PostUpdated(net, adj, routes).tables[n] && f2 == PostUpdated(net, adj, routes).flags[n]
  {
    var links := Links(adj, n);
    ResyncSeedFlag(net.tables[n], links, net.tables.Keys - {n} - links.Keys, n, Seeds(net.tables.Keys, n, links, routes));
    PostUpdatedAt(net, adj, routes, n);
  }

  lemma PostUpdatedAt(net: Net, adj: Adjacency, routes: map<Node, map<Node, Route>>, n: Node)
    requires n in net.tables
    ensures PostUpdated(net, adj, routes).tables[n] == PostUpdateTable(net, adj, routes, n)
    ensures PostUpdated(net, adj, routes).flags[n] == PostFlag(net, adj, routes, n)
  {
  }

  /** The resynchronisation of a router in a well-shaped network can index
      every cell it writes. */
  lemma ResyncFits(net: Net, n: Node, links: map<Node, nat>)
    requires Shaped(net) && n in net.tables
    ensures forall d :: d in net.tables[n] && d in links ==> d in net.tables[n][d]
    ensures forall d, v :: d in net.tables[n] && v in net.tables && v != n && v !in links ==> v in net.tables[n][d]
  {
  }

  /** The seeding pass can index every cell it reads or writes, and writes no
      diagonal. */
  lemma SeedsFit(net: Net, routes: map<Node, map<Node, Route>>, n: Node, links: map<Node, nat>, t1: Table)
    requires Shaped(net) && RoutesFit(net, routes) && n in net.tables
    requires t1.Keys == net.tables[n].Keys && forall d :: d in t1 ==> t1[d].Keys == net.tables[n][d].Keys
    ensures forall v :: v in Seeds(net.tables.Keys, n, links, routes) ==>
      v in t1 && v in t1[v] && v !in routes[v] && forall d :: d in routes[v] && d != n ==> d in t1 && v in t1[d]
    ensures forall v :: v in Seeds(net.tables.Keys, n, links, routes) ==> v in links && v !in Seeds(net.tables.Keys, n, links, routes)[v]
  {
  }

  /** The UPDATE section and the pass after it: the edge changes applied to the
      graph (a removal of an absent edge does nothing), then the pass with the
      routers' current routing tables. */
  method UpdateSection(g: Graph, net: Net, routes: map<Node, map<Node, Route>>, cs: seq<EdgeChange>)
    returns (net': Net, anyChanged: bool)
    requires Shaped(net) && RoutesFit(net, routes)
    requires forall i :: 0 <= i < |cs| ==> ValidChange(cs[i])
    modifies g
    ensures g.adj == ApplyChanges(old(g.adj), cs, true)
    ensures net' == PostUpdated(net, g.adj, routes)
    ensures anyChanged == exists n :: n in net.tables && net'.tables[n] != net.tables[n]
  {
    g.ApplyEdgeChanges(cs, true);
    net', anyChanged := PostUpdate(net, g.adj, routes);
  }

  /** Every router's routing table, as `print_routing_table` derives it after
      convergence; router `n` scans its vias in the order of `Others(names, n)`. */
  method AllRoutes(net: Net, names: seq<Node>) returns (routes: map<Node, map<Node, Route>>)
    requires Shaped(net) && net.tables.Keys == Elems(names) && Distinct(names)
    ensures routes.Keys == net.tables.Keys
    ensures forall n :: n in net.tables ==> RoutingTableOf(net.tables[n], Others(names, n), routes[n])
  {
    routes := map[];
    var pending := net.tables.Keys;
    while pending != {}
      invariant pending <= net.tables.Keys
      invariant forall n :: n in routes <==> n in net.tables && n !in pending
      invariant forall n :: n in routes ==> RoutingTableOf(net.tables[n], Others(names, n), routes[n])
      decreases pending
    {
      var n :| n in pending;
      var rs := RoutesOf(net, names, n);
      routes := routes[n := rs];
      pending := pending - {n};
    }
  }

  /** Router `n`'s routing table, scanning its vias in the order of
      `Others(names, n)`. */
  method RoutesOf(net: Net, names: seq<Node>, n: Node) returns (rs: map<Node, Route>)
    requires Shaped(net) && net.tables.Keys == Elems(names) && Distinct(names) && n in net.tables
    ensures RoutingTableOf(net.tables[n], Others(names, n), rs)
  {
    var others := Others(names, n);
    assert Elems(others) == net.tables.Keys - {n};
    rs := RoutesInOrder(net.tables[n], others);
  }
}

/** The `Router` class of almost1.py: its table, routing table and flag are
    updated in place by the operations of `Almost1`. */
module Almost1Router {
  import opened Common
  import opened Topology
  import opened Relaxation
  import opened Almost1

  class Router {
    const name: Node
    /** The other routers in input order: the order in which `__init__` inserts
        rows and vias, and so the order every later loop over the table sees. */
    const order: seq<Node>
    var table: Table
    var routingTable: map<Node, Route>
    var changed: bool

    /** The table has a row and a via for exactly the routers in `order`. */
    ghost predicate Valid()
      reads this
    {
      Square(table, Elems(order)) && Distinct(order) && name !in Elems(order)
    }

    /** `__init__`: an all-infinite table over the other routers, flagged. */
    constructor (name: Node, allNodes: seq<Node>)
      requires Distinct(allNodes)
      ensures this.name == name && Elems(order) == Elems(allNodes) - {name} && Valid()
      ensures forall d, v :: d in table && v in table[d] ==> table[d][v] == Inf
      ensures routingTable == map[] && changed
    {
      this.name := name;
      var others := Others(allNodes, name);
      var t := BuildInfTable(others);
      order := others;
      table := t;
      routingTable := map[];
      changed := true;
    }

    /** `update_from_graph`: neighbours' diagonals take the link weights, the
        columns of the other routers that are not neighbours become infinite,
        and the flag is raised only if some cell changed. */
    method UpdateFromGraph(g: Graph, allRouters: seq<Node>)
      requires Valid() && Elems(allRouters) - {name} <= Elems(order)
      modifies this
      ensures Valid() && routingTable == old(routingTable)
      ensures table == Resync(old(table), g.Neighbors(name), Elems(allRouters) - {name} - g.Neighbors(name).Keys)
      ensures changed == (old(changed) || table != old(table))
    {
      table, changed := ResyncTable(name, table, changed, g.Neighbors(name), Elems(allRouters));
    }

    /** `receive_update`: the relaxation through the sender (nothing when the
        sender has no row, as for this router itself); the flag is raised only
        if some cell changed. Python's `min` fails on an empty row, so the
        sender's rows that are read must be non-empty. */
    method ReceiveUpdate(sender: Node, snap: Table)
      requires Valid()
      requires sender in table ==> forall d :: d in snap && d in table && d != sender ==> snap[d] != map[]
      modifies this
      ensures Valid() && routingTable == old(routingTable)
      ensures table == RelaxOne(InfForUnknownDest, old(table), name, sender, snap)
      ensures changed == (old(changed) || table != old(table))
    {
      ghost var before := table;
      table, changed := ReceiveTable(name, table, changed, sender, snap);
      RelaxOneKeepsSquare(InfForUnknownDest, before, Elems(order), name, sender, snap);
    }

    /** `get_distance_table_copy`. */
    method GetDistanceTableCopy() returns (copy: Table)
      ensures copy == table
    {
      copy := CopyTable(table);
    }

    /** `create_routing_table`: for each destination the first via, in table
        order, with a strictly smaller cost than those before it; the distance
        table is only read. */
    method CreateRoutingTable()
      requires Valid()
      modifies this
      ensures Valid() && table == old(table) && changed == old(changed)
      ensures routingTable.Keys == table.Keys
      ensures forall d :: d in table ==> EarliestViaMin(table[d], order, routingTable[d])
    {
      routingTable := RoutesInOrder(table, order);
    }
  }

}
