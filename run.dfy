/** A whole run of DistanceVector.py or test.py, from the node and edge
    lists to the end of the second phase, with the fixed point each phase
    stops in. */
module Run {
  import opened Common
  import opened Topology
  import opened Relaxation
  import opened Exchange
  import Almost1
  import opened Queued
  import Consistency

  /** A whole run of DistanceVector.py (`sorted` orders; the second phase
      compares its first round with the copy taken before the UPDATE
      section) or test.py (input order; a fresh copy, `refresh`): start-up,
      the first convergence phase, the routing tables printed after it, the
      UPDATE section and its pass, and, when the pass changed some table,
      the second phase. A phase that stops ends in a fixed point of the
      round. With the old copy this rests on the history of the run: the
      first phase leaves every table consistent with its neighbours', so the
      pass changes a table only together with a direct-link cell, which the
      first round of the second phase cannot restore. */
  method Simulate(names: seq<Node>, initial: seq<EdgeChange>, updates: seq<EdgeChange>,
                  sorted: bool, refresh: bool, fuel: nat)
    returns (g: Graph, first: Net, stop1: Stop, second: Net, changed: bool, final: Net, stop2: Stop)
    requires Distinct(names) && forall i :: 0 <= i < |initial| ==> initial[i].weight >= 0
    requires forall i :: 0 <= i < |updates| ==> ValidChange(updates[i])
    requires LinksToRouters(ApplyChanges(Vertices(Elems(names)), initial, false), Elems(names))
    requires LinksToRouters(ApplyChanges(ApplyChanges(Vertices(Elems(names)), initial, false), updates, false), Elems(names))
    ensures g.adj == ApplyChanges(ApplyChanges(Vertices(Elems(names)), initial, false), updates, false)
    ensures stop1 != OutOfFuel ==>
      RoundOf(ExistingColumn, first, ApplyChanges(Vertices(Elems(names)), initial, false)) == first
    ensures changed == (second.tables != first.tables)
    ensures stop1 != OutOfFuel && g.adj == ApplyChanges(Vertices(Elems(names)), initial, false) ==> !changed
    ensures !changed ==> final == second
    ensures changed && stop1 != OutOfFuel && stop2 != OutOfFuel ==> RoundOf(ExistingColumn, final, g.adj) == final
  {
    var orders, t;
    g, first, orders, t, stop1 := FirstPhase(names, initial, sorted, fuel);
    ghost var adj0 := g.adj;
    var routes := AllRoutes(first, orders);
    if stop1 != OutOfFuel {
      Consistency.FixedIsQuiet(first, adj0);
      Consistency.RoutingTablesCost(first, routes, orders);
    }
    second, changed := UpdateSection(g, first, routes, updates);
    MapsEqualIff(second.tables, first.tables);
    if stop1 != OutOfFuel && g.adj == adj0 {
      Consistency.NoOpPass(first, adj0, routes, second);
    }
    final, stop2 := second, Unchanged;
    if changed {
      var rounds2, t2;
      final, rounds2, t2, stop2 := SecondPhase(first.tables, second, g.adj, t + 1, fuel, refresh);
      if stop1 != OutOfFuel {
        SecondPhaseSettles(first, adj0, g.adj, routes, second, final, rounds2, stop2, refresh);
      }
    }
  }

  /** The one way the second phase can stop without a fixed point, a
      first round that gives back the tables copied before the UPDATE
      section, cannot happen after a pass that changed some table. */
  lemma SecondPhaseSettles(first: Net, adj0: Adjacency, adj1: Adjacency, routes: map<Node, map<Node, Route>>,
                           second: Net, final: Net, rounds: nat, stop: Stop, refresh: bool)
    requires Consistency.Consistent(first, adj0) && !AnyFlag(first.flags) && Consistency.RoutesCost(first, routes)
    requires Shaped(second) && second.tables == Almost1.PostUpdated(first, adj1, routes).tables
    requires second.tables != first.tables
    requires final == Rounds(ExistingColumn, second, adj1, rounds)
    requires stop != OutOfFuel ==> rounds >= 1
    requires stop != OutOfFuel && (refresh || stop == Quiet || rounds > 1) ==> RoundOf(ExistingColumn, final, adj1) == final
    requires !refresh && stop == Unchanged && rounds == 1 ==> final.tables == first.tables
    ensures stop != OutOfFuel ==> RoundOf(ExistingColumn, final, adj1) == final
  {
    Consistency.PassUndone(first, adj0, adj1, routes, second);
    if rounds == 1 {
      assert final == RoundOf(ExistingColumn, Rounds(ExistingColumn, second, adj1, 0), adj1);
    }
  }

  /** Start-up and the first convergence phase of a run; the tables it
      leaves are consistent with the links and with each other. */
  method FirstPhase(names: seq<Node>, initial: seq<EdgeChange>, sorted: bool, fuel: nat)
    returns (g: Graph, first: Net, orders: map<Node, seq<Node>>, t: nat, stop: Stop)
    requires Distinct(names) && forall i :: 0 <= i < |initial| ==> initial[i].weight >= 0
    requires LinksToRouters(ApplyChanges(Vertices(Elems(names)), initial, false), Elems(names))
    ensures fresh(g) && g.adj == ApplyChanges(Vertices(Elems(names)), initial, false)
    ensures Shaped(first) && first.tables.Keys == Elems(names) && Consistency.Consistent(first, g.adj)
    ensures orders.Keys == Elems(names) && forall n :: n in orders ==> TableOrder(names, n, sorted, orders[n])
    ensures stop != OutOfFuel ==> RoundOf(ExistingColumn, first, g.adj) == first
  {
    var start;
    g, start, orders := Startup(names, initial, sorted);
    Almost1.StartedShaped(Elems(names), g.adj);
    var rounds;
    first, rounds, t, stop := Converge(start, g.adj, fuel);
    StartedHistory(Elems(names), initial, rounds);
  }

  /** Every state of the first phase keeps the start-up invariant of
      `Consistency` and the set of routers. */
  lemma StartedHistory(names: set<Node>, initial: seq<EdgeChange>, k: nat)
    requires forall i :: 0 <= i < |initial| ==> ValidChange(initial[i])
    ensures var adj := ApplyChanges(Vertices(names), initial, false);
      && Consistency.Consistent(Rounds(ExistingColumn, Almost1.Started(names, adj), adj, k), adj)
      && Rounds(ExistingColumn, Almost1.Started(names, adj), adj, k).tables.Keys == names
  {
    var adj := ApplyChanges(Vertices(names), initial, false);
    ApplyChangesKeepsSymmetry(Vertices(names), initial, false);
    Consistency.StartedConsistent(names, adj);
    Consistency.RoundsConsistent(Almost1.Started(names, adj), adj, k);
  }
}
