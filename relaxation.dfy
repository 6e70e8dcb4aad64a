/** The table updates every version performs, as functions of the table before
    and after: the Bellman-Ford relaxation through one sender (in each version's
    own reading), all of one round's relaxations at once, the resynchronisation
    with the graph, and the seeding from neighbours' routing tables. */
module Relaxation {
  import opened Common

  /** Which version's relaxation rule applies when a router hears from `sender`. */
  datatype Rule =
    /** almost4.py: no-op when the sender is the router itself; a cell is written
        only when the destination is in the sender's table. */
    | SkipUnknownDest
    /** almost1.py: no-op when the sender has no row; a destination missing from
        the sender's table costs infinity. */
    | InfForUnknownDest
    /** DistanceVector.py and test.py: a cell is written only when the sender is
        one of the destination row's vias. */
    | ExistingColumn

  /** The sender's minimum for `d`, or infinity when it has no row for `d`. */
  ghost function MinOr(snap: Table, d: Node): Cost {
    if d in snap then MinOf(snap[d]) else Inf
  }

  /** The new value of cell [d][s] when router `self`, holding `t`, hears `snap`
      from `s`; None when the cell is left alone. Never touches the diagonal. */
  ghost function Candidate(rule: Rule, t: Table, self: Node, s: Node, d: Node, snap: Table): (c: Option<Cost>)
    ensures c.Some? ==> d != s
  {
    match rule
    case SkipUnknownDest =>
      if s != self && d != s && d in snap then Some(Add(DiagOf(t, s), MinOf(snap[d]))) else None
    case InfForUnknownDest =>
      if s in t && d != s then Some(Add(DiagOf(t, s), MinOr(snap, d))) else None
    case ExistingColumn =>
      if d != s && d in t && s in t[d] then Some(Add(DiagOf(t, s), MinOr(snap, d))) else None
  }

  /** One relaxation: every destination row takes its new cost via `s`. */
  ghost function RelaxOne(rule: Rule, t: Table, self: Node, s: Node, snap: Table): (r: Table)
  {
    map d | d in t ::
      match Candidate(rule, t, self, s, d, snap)
      case Some(c) => t[d][s := c]
      case None => t[d]
  }

  /** Only the sender's column can change, no row is added or removed, and no
      diagonal (direct-link) cell is touched. */
  lemma RelaxOneFrame(rule: Rule, t: Table, self: Node, s: Node, snap: Table)
    ensures forall d, v :: d in t && v in t[d] && v != s ==>
      v in RelaxOne(rule, t, self, s, snap)[d] && RelaxOne(rule, t, self, s, snap)[d][v] == t[d][v]
    ensures forall d, v :: d in t && v in RelaxOne(rule, t, self, s, snap)[d] ==> v in t[d] || v == s
    ensures forall d :: d in t && d in t[d] ==>
      d in RelaxOne(rule, t, self, s, snap)[d] && RelaxOne(rule, t, self, s, snap)[d][d] == t[d][d]
  {
  }

  /** A relaxation whose written cells all exist keeps a square table square. */
  lemma RelaxOneKeepsSquare(rule: Rule, t: Table, keys: set<Node>, self: Node, s: Node, snap: Table)
    requires Square(t, keys) && ColumnPresent(rule, t, self, s, snap)
    ensures Square(RelaxOne(rule, t, self, s, snap), keys)
  {
    var r := RelaxOne(rule, t, self, s, snap);
    forall d | d in r
      ensures r[d].Keys == keys
    {
      RelaxOneAt(rule, t, self, s, snap, d);
    }
  }

  /** One row of a relaxation, as the per-destination loops compute it. */
  lemma RelaxOneAt(rule: Rule, t: Table, self: Node, s: Node, snap: Table, d: Node)
    requires d in t
    ensures RelaxOne(rule, t, self, s, snap)[d] ==
      match Candidate(rule, t, self, s, d, snap)
      case Some(c) => t[d][s := c]
      case None => t[d]
  {
  }

  /** A relaxation with no candidate anywhere leaves the table as it is. */
  lemma RelaxOneIdle(rule: Rule, t: Table, self: Node, s: Node, snap: Table)
    requires forall d :: d in t ==> Candidate(rule, t, self, s, d, snap).None?
    ensures RelaxOne(rule, t, self, s, snap) == t
  {
    var r := RelaxOne(rule, t, self, s, snap);
    forall d | d in t
      ensures r[d] == t[d]
    {
      RelaxOneAt(rule, t, self, s, snap, d);
    }
  }

  /** A relaxation loop over the rows of `t` part-way through: `r` holds the
      relaxed rows except those in `rest`, which are untouched. */
  ghost predicate RelaxedExcept(rule: Rule, t: Table, self: Node, sender: Node, snap: Table, r: Table, rest: set<Node>) {
    && rest <= t.Keys && r.Keys == t.Keys
    && forall d :: d in t ==> r[d] == if d in rest then t[d] else RelaxOne(rule, t, self, sender, snap)[d]
  }

  /** Before the loop no row is relaxed; after it, the whole table is. */
  lemma RelaxedEnds(rule: Rule, t: Table, self: Node, sender: Node, snap: Table, r: Table)
    ensures RelaxedExcept(rule, t, self, sender, snap, t, t.Keys)
    ensures RelaxedExcept(rule, t, self, sender, snap, r, {}) ==> r == RelaxOne(rule, t, self, sender, snap)
  {
    if RelaxedExcept(rule, t, self, sender, snap, r, {}) {
      MapsEqual(r, RelaxOne(rule, t, self, sender, snap));
    }
  }

  /** One row of a relaxation loop that raises a flag on the first cell it
      changes: the loop moves on by row `dest`, and its flag (the old one, or
      the written cell's change) still says whether the table differs from `t`. */
  lemma RelaxedFlagStep(rule: Rule, t: Table, self: Node, s: Node, snap: Table, r: Table, rest: set<Node>,
                        dest: Node, c0: bool, c: bool)
    requires dest in rest && RelaxedExcept(rule, t, self, s, snap, r, rest) && c == (c0 || r != t)
    requires ColumnPresent(rule, t, self, s, snap)
    ensures match Candidate(rule, t, self, s, dest, snap)
      case Some(x) =>
        && s in r[dest] && r[dest][s] == t[dest][s]
        && RelaxedExcept(rule, t, self, s, snap, r[dest := r[dest][s := x]], rest - {dest})
        && (c || x != r[dest][s]) == (c0 || r[dest := r[dest][s := x]] != t)
      case None => RelaxedExcept(rule, t, self, s, snap, r, rest - {dest})
  {
    RelaxOneAt(rule, t, self, s, snap, dest);
    RelaxedRowStep(rule, t, self, s, snap, r, rest, dest);
    match Candidate(rule, t, self, s, dest, snap)
    case Some(x) =>
      assert r[dest := r[dest][s := x]] == r[dest := RelaxOne(rule, t, self, s, snap)[dest]];
      CellWrite(t, r, dest, s, x);
    case None =>
      assert r[dest := RelaxOne(rule, t, self, s, snap)[dest]] == r;
  }

  /** The loop's invariant survives relaxing one more row. */
  lemma RelaxedRowStep(rule: Rule, t: Table, self: Node, s: Node, snap: Table, r: Table, rest: set<Node>, dest: Node)
    requires dest in rest && RelaxedExcept(rule, t, self, s, snap, r, rest)
    ensures RelaxedExcept(rule, t, self, s, snap, r[dest := RelaxOne(rule, t, self, s, snap)[dest]], rest - {dest})
  {
  }

  /** Every cell a relaxation from `s` writes already exists. */
  ghost predicate ColumnPresent(rule: Rule, t: Table, self: Node, s: Node, snap: Table) {
    forall d :: d in t && Candidate(rule, t, self, s, d, snap).Some? ==> s in t[d]
  }

  ghost function RelaxedCell(rule: Rule, t: Table, self: Node, inbox: map<Node, Table>, d: Node, v: Node): Cost
    requires d in t && v in t[d]
  {
    if v in inbox then
      match Candidate(rule, t, self, v, d, inbox[v])
      case Some(c) => c
      case None => t[d][v]
    else t[d][v]
  }

  /** All relaxations of one round at once: `inbox` maps each sender heard from
      to the snapshot it sent. */
  ghost function RelaxAll(rule: Rule, t: Table, self: Node, inbox: map<Node, Table>): (r: Table)
  {
    map d | d in t :: RelaxedRow(rule, t, self, inbox, d)
  }

  ghost function RelaxedRow(rule: Rule, t: Table, self: Node, inbox: map<Node, Table>, d: Node): (row: Row)
    requires d in t
    ensures row.Keys == t[d].Keys
  {
    map v | v in t[d] :: RelaxedCell(rule, t, self, inbox, d, v)
  }

  /** A round's relaxations write only existing cells. */
  lemma RelaxAllShape(rule: Rule, t: Table, self: Node, inbox: map<Node, Table>)
    ensures RelaxAll(rule, t, self, inbox).Keys == t.Keys
    ensures forall d :: d in t ==> RelaxAll(rule, t, self, inbox)[d].Keys == t[d].Keys
  {
    var r := RelaxAll(rule, t, self, inbox);
    forall d | d in t
      ensures r[d].Keys == t[d].Keys
    {
      assert r[d] == RelaxedRow(rule, t, self, inbox, d);
    }
  }

  /** A candidate only looks at the table's key sets and at the sender's diagonal. */
  lemma CandidateStable(rule: Rule, t: Table, a: Table, self: Node, s: Node, d: Node, snap: Table)
    requires a.Keys == t.Keys && forall k :: k in t ==> a[k].Keys == t[k].Keys
    requires DiagOf(a, s) == DiagOf(t, s)
    ensures Candidate(rule, a, self, s, d, snap) == Candidate(rule, t, self, s, d, snap)
  {
  }

  /** Relaxations from different senders commute: applying one more sender's
      snapshot to a round's partial result is the round result with that sender
      added. Sequential delivery in any order therefore gives `RelaxAll`. */
  lemma RelaxAllStep(rule: Rule, t: Table, self: Node, inbox: map<Node, Table>, s: Node, snap: Table)
    requires s !in inbox || inbox[s] == snap
    requires ColumnPresent(rule, t, self, s, snap)
    ensures RelaxOne(rule, RelaxAll(rule, t, self, inbox), self, s, snap) == RelaxAll(rule, t, self, inbox[s := snap])
  {
    var a := RelaxAll(rule, t, self, inbox);
    var b := RelaxAll(rule, t, self, inbox[s := snap]);
    var r := RelaxOne(rule, a, self, s, snap);
    RelaxAllKeepsDiagonal(rule, t, self, inbox, s);
    assert r.Keys == t.Keys && b.Keys == t.Keys;
    forall d | d in t
      ensures r[d] == b[d]
    {
      RelaxAllStepRow(rule, t, self, inbox, s, snap, d);
    }
    MapsEqual(r, b);
  }

  lemma RelaxAllKeepsDiagonal(rule: Rule, t: Table, self: Node, inbox: map<Node, Table>, s: Node)
    ensures DiagOf(RelaxAll(rule, t, self, inbox), s) == DiagOf(t, s)
  {
    var a := RelaxAll(rule, t, self, inbox);
    if s in t && s in t[s] {
      assert a[s][s] == RelaxedCell(rule, t, self, inbox, s, s);
    }
  }

  lemma RelaxAllStepRow(rule: Rule, t: Table, self: Node, inbox: map<Node, Table>, s: Node, snap: Table, d: Node)
    requires s !in inbox || inbox[s] == snap
    requires d in t
    requires ColumnPresent(rule, t, self, s, snap)
    requires DiagOf(RelaxAll(rule, t, self, inbox), s) == DiagOf(t, s)
    ensures RelaxOne(rule, RelaxAll(rule, t, self, inbox), self, s, snap)[d] == RelaxAll(rule, t, self, inbox[s := snap])[d]
  {
    var a := RelaxAll(rule, t, self, inbox);
    CandidateStable(rule, t, a, self, s, d, snap);
    var cand := Candidate(rule, t, self, s, d, snap);
    var ad := RelaxedRow(rule, t, self, inbox, d);
    var bd := RelaxedRow(rule, t, self, inbox[s := snap], d);
    assert a[d] == ad;
    var rd := if cand.Some? then ad[s := cand.value] else ad;
    assert RelaxOne(rule, a, self, s, snap)[d] == rd;
    RowStep(rule, t, self, inbox, s, snap, d, cand);
  }

  lemma RowStep(rule: Rule, t: Table, self: Node, inbox: map<Node, Table>, s: Node, snap: Table, d: Node, cand: Option<Cost>)
    requires s !in inbox || inbox[s] == snap
    requires d in t
    requires cand == Candidate(rule, t, self, s, d, snap)
    requires cand.Some? ==> s in t[d]
    ensures (var ad := RelaxedRow(rule, t, self, inbox, d);
             if cand.Some? then ad[s := cand.value] else ad) == RelaxedRow(rule, t, self, inbox[s := snap], d)
  {
    var ad := RelaxedRow(rule, t, self, inbox, d);
    var bd := RelaxedRow(rule, t, self, inbox[s := snap], d);
    var rd := if cand.Some? then ad[s := cand.value] else ad;
    forall v | v in t[d] && v != s
      ensures bd[v] == ad[v]
    {
      assert bd[v] == RelaxedCell(rule, t, self, inbox[s := snap], d, v);
      assert ad[v] == RelaxedCell(rule, t, self, inbox, d, v);
    }
    if s in t[d] {
      assert bd[s] == RelaxedCell(rule, t, self, inbox[s := snap], d, s);
      assert ad[s] == RelaxedCell(rule, t, self, inbox, d, s);
    }
    assert rd.Keys == bd.Keys;
    forall v | v in rd
      ensures rd[v] == bd[v]
    {
      if v != s {
        assert rd[v] == ad[v];
      }
    }
  }

  /** A round's result with fewer senders equals the table whenever the result
      with more senders does. */
  lemma RelaxAllUnchanged(rule: Rule, t: Table, self: Node, small: map<Node, Table>, large: map<Node, Table>)
    requires forall k :: k in small ==> k in large && large[k] == small[k]
    requires RelaxAll(rule, t, self, large) == t
    ensures RelaxAll(rule, t, self, small) == t
  {
    var a := RelaxAll(rule, t, self, small);
    var b := RelaxAll(rule, t, self, large);
    forall d | d in t
      ensures a[d] == t[d]
    {
      forall v | v in t[d]
        ensures a[d][v] == t[d][v]
      {
        assert b[d][v] == t[d][v];
      }
    }
  }

  /** Once a delivery has changed a router's table, later deliveries of the same
      round (other senders, or the same snapshot again) never restore it: the
      round leaves the table changed exactly when some delivery changed it. */
  lemma RelaxAllKeepsChange(rule: Rule, t: Table, self: Node, small: map<Node, Table>, large: map<Node, Table>)
    requires forall k :: k in small ==> k in large && large[k] == small[k]
    ensures RelaxAll(rule, t, self, small) != t ==> RelaxAll(rule, t, self, large) != t
  {
    if RelaxAll(rule, t, self, large) == t {
      RelaxAllUnchanged(rule, t, self, small, large);
    }
  }

  /** The dirty flag after one more delivery: raised before or raised by this
      delivery exactly when the table now differs from the round's start. */
  lemma DeliveryFlag(rule: Rule, t: Table, self: Node, inbox: map<Node, Table>, s: Node, snap: Table)
    requires s !in inbox || inbox[s] == snap
    ensures (RelaxAll(rule, t, self, inbox) != t ||
             RelaxAll(rule, t, self, inbox[s := snap]) != RelaxAll(rule, t, self, inbox))
        == (RelaxAll(rule, t, self, inbox[s := snap]) != t)
  {
    if RelaxAll(rule, t, self, inbox[s := snap]) == t {
      RelaxAllUnchanged(rule, t, self, inbox, inbox[s := snap]);
    }
  }

  /** Hearing from nobody changes nothing. */
  lemma RelaxAllEmpty(rule: Rule, t: Table, self: Node)
    ensures RelaxAll(rule, t, self, map[]) == t
  {
    var a := RelaxAll(rule, t, self, map[]);
    forall d | d in t
      ensures a[d] == t[d]
    {
    }
  }

  // ---------------------------------------------------------------------------
  // Resynchronisation with the graph, and seeding from neighbours' routes

  /** `update_from_graph` / `update_self` / `refresh_costs`: each neighbour's
      diagonal cell takes its link weight, then every cell in the column of a
      router in `purge` (a router that is no longer a neighbour) becomes infinite.
      Only existing cells are written. */
  function Resync(t: Table, links: map<Node, nat>, purge: set<Node>): (r: Table)
    ensures r.Keys == t.Keys && forall d :: d in t ==> r[d].Keys == t[d].Keys
  {
    map d | d in t :: map v | v in t[d] ::
      if v in purge then Inf
      else if v == d && d in links then Fin(links[d])
      else t[d][v]
  }

  /** What the resynchronisation promises: neighbours' diagonals hold the link
      weight, purged columns are infinite, and every other cell is unchanged. */
  lemma ResyncEffect(t: Table, links: map<Node, nat>, purge: set<Node>)
    requires links.Keys !! purge
    ensures forall d :: d in t && d in t[d] && d in links ==> Resync(t, links, purge)[d][d] == Fin(links[d])
    ensures forall d, v :: d in t && v in t[d] && v in purge ==> Resync(t, links, purge)[d][v] == Inf
    ensures forall d, v :: d in t && v in t[d] && v !in purge && (v != d || d !in links) ==>
      Resync(t, links, purge)[d][v] == t[d][v]
  {
  }

  /** The seeding pass after a topology change: for each neighbour `v` in
      `seeds` and each destination `d` of its routing table other than `self`,
      cell [d][v] becomes the direct cost to `v` plus `v`'s advertised route cost. */
  function Seeded(t: Table, self: Node, seeds: map<Node, map<Node, Route>>): (r: Table)
    ensures r.Keys == t.Keys && forall d :: d in t ==> r[d].Keys == t[d].Keys
  {
    map d | d in t :: map v | v in t[d] :: SeedValue(t, self, seeds, d, v)
  }

  /** Cell [d][v] after the seeding. */
  function SeedValue(t: Table, self: Node, seeds: map<Node, map<Node, Route>>, d: Node, v: Node): Cost
    requires d in t && v in t[d]
  {
    if v in seeds && d in seeds[v] && d != self then Add(DiagOf(t, v), seeds[v][d].cost) else t[d][v]
  }

  /** Seeding from no neighbour changes nothing. */
  lemma SeededNone(t: Table, self: Node)
    ensures Seeded(t, self, map[]) == t
  {
    var r := Seeded(t, self, map[]);
    forall d | d in t
      ensures r[d] == t[d]
    {
      forall v | v in t[d]
        ensures r[d][v] == t[d][v]
      {
        assert r[d][v] == SeedValue(t, self, map[], d, v);
      }
    }
  }

  /** Seeding from a neighbour with an empty routing table changes nothing. */
  lemma SeededEmpty(t: Table, self: Node, seeds: map<Node, map<Node, Route>>, v: Node)
    requires v !in seeds
    ensures Seeded(t, self, seeds[v := map[]]) == Seeded(t, self, seeds)
  {
    var a := Seeded(t, self, seeds[v := map[]]);
    var b := Seeded(t, self, seeds);
    forall d | d in a
      ensures a[d].Keys == b[d].Keys && forall u :: u in a[d] ==> a[d][u] == b[d][u]
    {
      forall u | u in a[d]
        ensures a[d][u] == b[d][u]
      {
        assert a[d][u] == SeedValue(t, self, seeds[v := map[]], d, u);
      }
    }
    TablesEqual(a, b);
  }

  /** No routing table has an entry for its own router, so the seeding writes
      no diagonal of a seeding neighbour. */
  lemma SeededDiag(t: Table, self: Node, seeds: map<Node, map<Node, Route>>, v: Node)
    requires v in t && v in t[v]
    requires v in seeds ==> v !in seeds[v]
    ensures Seeded(t, self, seeds)[v][v] == t[v][v]
  {
  }

  /** One more destination `dest` in neighbour `v`'s routing table: the seeding
      writes the one cell [dest][v] (unless `dest` is the router itself), which
      held its original value before. */
  lemma SeededStep(t: Table, self: Node, seeds: map<Node, map<Node, Route>>, v: Node, rv: map<Node, Route>, dest: Node)
    requires v !in seeds && dest in rv
    requires dest != self ==> dest in t && v in t[dest]
    ensures var r := Seeded(t, self, seeds[v := rv - {dest}]);
      var r' := Seeded(t, self, seeds[v := rv]);
      && (dest == self ==> r' == r)
      && (dest != self ==>
            && dest in r && v in r[dest] && r[dest][v] == t[dest][v]
            && r' == r[dest := r[dest][v := Add(DiagOf(t, v), rv[dest].cost)]])
  {
    if dest == self {
      SeededSelfStep(t, self, seeds, v, rv);
    } else {
      SeededWriteStep(t, self, seeds, v, rv, dest);
    }
  }

  lemma SeededSelfStep(t: Table, self: Node, seeds: map<Node, map<Node, Route>>, v: Node, rv: map<Node, Route>)
    requires v !in seeds && self in rv
    ensures Seeded(t, self, seeds[v := rv]) == Seeded(t, self, seeds[v := rv - {self}])
  {
    var r := Seeded(t, self, seeds[v := rv - {self}]);
    var r' := Seeded(t, self, seeds[v := rv]);
    forall d | d in r'
      ensures r'[d].Keys == r[d].Keys && forall u :: u in r'[d] ==> r'[d][u] == r[d][u]
    {
      forall u | u in r'[d]
        ensures r'[d][u] == r[d][u]
      {
        assert r'[d][u] == SeedValue(t, self, seeds[v := rv], d, u);
        assert r[d][u] == SeedValue(t, self, seeds[v := rv - {self}], d, u);
      }
    }
    TablesEqual(r', r);
  }

  lemma SeededWriteStep(t: Table, self: Node, seeds: map<Node, map<Node, Route>>, v: Node, rv: map<Node, Route>, dest: Node)
    requires v !in seeds && dest in rv && dest != self && dest in t && v in t[dest]
    ensures var r := Seeded(t, self, seeds[v := rv - {dest}]);
      && r[dest][v] == t[dest][v]
      && Seeded(t, self, seeds[v := rv]) == r[dest := r[dest][v := Add(DiagOf(t, v), rv[dest].cost)]]
  {
    var r := Seeded(t, self, seeds[v := rv - {dest}]);
    var r' := Seeded(t, self, seeds[v := rv]);
    var x := r[dest := r[dest][v := Add(DiagOf(t, v), rv[dest].cost)]];
    assert r[dest][v] == SeedValue(t, self, seeds[v := rv - {dest}], dest, v);
    SeededWrittenRow(t, self, seeds, v, rv, dest);
    SeededOtherRows(t, self, seeds, v, rv, dest);
    assert forall d :: d in r' ==> r'[d] == x[d];
  }

  lemma SeededWrittenRow(t: Table, self: Node, seeds: map<Node, map<Node, Route>>, v: Node, rv: map<Node, Route>, dest: Node)
    requires v !in seeds && dest in rv && dest != self && dest in t && v in t[dest]
    ensures Seeded(t, self, seeds[v := rv])[dest] ==
      Seeded(t, self, seeds[v := rv - {dest}])[dest][v := Add(DiagOf(t, v), rv[dest].cost)]
  {
    var r := Seeded(t, self, seeds[v := rv - {dest}]);
    var r' := Seeded(t, self, seeds[v := rv]);
    forall u | u in r'[dest]
      ensures r'[dest][u] == r[dest][v := Add(DiagOf(t, v), rv[dest].cost)][u]
    {
      SeedValueStep(t, self, seeds, v, rv, dest, dest, u);
    }
  }

  lemma SeededOtherRows(t: Table, self: Node, seeds: map<Node, map<Node, Route>>, v: Node, rv: map<Node, Route>, dest: Node)
    requires v !in seeds && dest in rv && dest != self
    ensures forall d :: d in t && d != dest ==>
      Seeded(t, self, seeds[v := rv])[d] == Seeded(t, self, seeds[v := rv - {dest}])[d]
  {
    var r := Seeded(t, self, seeds[v := rv - {dest}]);
    var r' := Seeded(t, self, seeds[v := rv]);
    forall d | d in t && d != dest
      ensures r'[d] == r[d]
    {
      forall u | u in r'[d]
        ensures r'[d][u] == r[d][u]
      {
        SeedValueStep(t, self, seeds, v, rv, dest, d, u);
      }
    }
  }

  lemma SeedValueStep(t: Table, self: Node, seeds: map<Node, map<Node, Route>>, v: Node, rv: map<Node, Route>,
                      dest: Node, d: Node, u: Node)
    requires v !in seeds && dest in rv && dest != self && d in t && u in t[d]
    ensures SeedValue(t, self, seeds[v := rv], d, u) ==
      if d == dest && u == v then Add(DiagOf(t, v), rv[dest].cost) else SeedValue(t, self, seeds[v := rv - {dest}], d, u)
  {
  }
}
