/** The routers' estimates never fall below the true cost of reaching a
    destination: from start-up (almost1.py, DistanceVector.py, test.py) or
    from a re-initialisation (almost4.py), every round under any of the three
    relaxation rules leaves each finite cell [d][v] of router `n`'s table
    equal to the weight of a real walk in the graph that leaves `n` over its
    link to `v` and ends at `d`. A cell is therefore never below the
    shortest-path distance from `n` to `d` through `v`. */
module Walks {
  import opened Common
  import opened Topology
  import opened Relaxation
  import opened Exchange
  import Almost1
  import Almost4

  /** `w` is a walk of `adj`: one or more nodes, each linked to the next. */
  ghost predicate IsWalk(adj: Adjacency, w: seq<Node>) {
    |w| >= 1 && forall i :: 0 <= i < |w| - 1 ==> HasLink(adj, w[i], w[i + 1])
  }

  /** The sum of the link weights along `w`. */
  ghost function Weight(adj: Adjacency, w: seq<Node>): nat
    decreases |w|
  {
    if |w| <= 1 then 0
    else (if HasLink(adj, w[0], w[1]) then adj[w[0]][w[1]] else 0) + Weight(adj, w[1..])
  }

  /** Some walk of weight `c` leaves `n` over its link to `v` and ends at `d`. */
  ghost predicate Reaches(adj: Adjacency, n: Node, v: Node, d: Node, c: nat) {
    exists w :: IsWalk(adj, w) && |w| >= 2 && w[0] == n && w[1] == v && w[|w| - 1] == d && Weight(adj, w) == c
  }

  /** Every finite cell of `t`, router `n`'s table, is the weight of a walk
      from `n` through the cell's via to the cell's destination. */
  ghost predicate Sound(adj: Adjacency, n: Node, t: Table) {
    forall d, v :: d in t && v in t[d] && t[d][v].Fin? ==> Reaches(adj, n, v, d, t[d][v].n)
  }

  /** Every router's table in `net` is sound. */
  ghost predicate SoundNet(net: Net, adj: Adjacency) {
    forall n :: n in net.tables ==> Sound(adj, n, net.tables[n])
  }

  /** A walk followed by a walk from its last node is a walk whose weight is
      the sum of the two. */
  lemma {:induction false} Join(adj: Adjacency, w1: seq<Node>, w2: seq<Node>)
    requires IsWalk(adj, w1) && IsWalk(adj, w2) && w1[|w1| - 1] == w2[0]
    ensures IsWalk(adj, w1 + w2[1..]) && Weight(adj, w1 + w2[1..]) == Weight(adj, w1) + Weight(adj, w2)
    decreases |w1|
  {
    var w := w1 + w2[1..];
    if |w1| == 1 {
      assert w == w2;
    } else {
      var tail := w1[1..];
      assert IsWalk(adj, tail) by {
        forall i | 0 <= i < |tail| - 1
          ensures HasLink(adj, tail[i], tail[i + 1])
        {
          assert tail[i] == w1[i + 1] && tail[i + 1] == w1[i + 2];
        }
      }
      Join(adj, tail, w2);
      assert w[1..] == tail + w2[1..];
      assert HasLink(adj, w[0], w[1]);
      forall i | 0 <= i < |w| - 1
        ensures HasLink(adj, w[i], w[i + 1])
      {
        if i > 0 {
          assert w[i] == w[1..][i - 1] && w[i + 1] == w[1..][i];
        }
      }
    }
  }

  /** The walk across one link. */
  lemma Step(adj: Adjacency, n: Node, d: Node)
    requires HasLink(adj, n, d)
    ensures Reaches(adj, n, d, d, adj[n][d])
  {
    var w := [n, d];
    assert w[1..] == [d];
    assert Weight(adj, w) == adj[n][d];
    assert IsWalk(adj, w);
  }

  /** A walk from `n` to `s` over its link to `s`, then a walk from `s` to
      `d`: a walk from `n` over its link to `s` to `d`. */
  lemma ReachesJoin(adj: Adjacency, n: Node, s: Node, u: Node, d: Node, a: nat, b: nat)
    requires Reaches(adj, n, s, s, a) && Reaches(adj, s, u, d, b)
    ensures Reaches(adj, n, s, d, a + b)
  {
    var w1 :| IsWalk(adj, w1) && |w1| >= 2 && w1[0] == n && w1[1] == s && w1[|w1| - 1] == s && Weight(adj, w1) == a;
    var w2 :| IsWalk(adj, w2) && |w2| >= 2 && w2[0] == s && w2[1] == u && w2[|w2| - 1] == d && Weight(adj, w2) == b;
    Join(adj, w1, w2);
    var w := w1 + w2[1..];
    assert w[0] == n && w[1] == s && w[|w| - 1] == d;
  }

  /** What every rule writes into cell [d][s]: the direct cost to `s` plus
      the sender's minimum for `d`. */
  lemma CandidateValue(rule: Rule, t: Table, self: Node, s: Node, d: Node, snap: Table)
    requires Candidate(rule, t, self, s, d, snap).Some?
    ensures Candidate(rule, t, self, s, d, snap).value == Add(DiagOf(t, s), MinOr(snap, d))
  {
  }

  /** A sound table relaxed through the sound snapshot of sender `s` gets a
      sound cell [d][s]. */
  lemma CandidateSound(adj: Adjacency, rule: Rule, t: Table, self: Node, s: Node, d: Node, snap: Table)
    requires Sound(adj, self, t) && Sound(adj, s, snap)
    requires Candidate(rule, t, self, s, d, snap).Some?
    ensures var c := Candidate(rule, t, self, s, d, snap).value;
      c.Fin? ==> Reaches(adj, self, s, d, c.n)
  {
    CandidateValue(rule, t, self, s, d, snap);
    var diag := DiagOf(t, s);
    var m := MinOr(snap, d);
    if diag.Fin? && m.Fin? {
      assert Reaches(adj, self, s, s, diag.n);
      var u :| u in snap[d] && snap[d][u] == m;
      assert Reaches(adj, s, u, d, m.n);
      ReachesJoin(adj, self, s, u, d, diag.n, m.n);
    }
  }

  /** A round's relaxations of a sound table through sound snapshots give a
      sound table. */
  lemma RelaxAllSound(adj: Adjacency, rule: Rule, t: Table, self: Node, inbox: map<Node, Table>)
    requires Sound(adj, self, t)
    requires forall s :: s in inbox ==> Sound(adj, s, inbox[s])
    ensures Sound(adj, self, RelaxAll(rule, t, self, inbox))
  {
    var r: Table := RelaxAll(rule, t, self, inbox);
    forall d: Node, v: Node | d in r && v in r[d] && r[d][v].Fin?
      ensures Reaches(adj, self, v, d, r[d][v].n)
    {
      assert r[d] == RelaxedRow(rule, t, self, inbox, d);
      assert r[d][v] == RelaxedCell(rule, t, self, inbox, d, v);
      if v in inbox && Candidate(rule, t, self, v, d, inbox[v]).Some? {
        CandidateSound(adj, rule, t, self, v, d, inbox[v]);
      }
    }
  }

  /** One round, under any rule, keeps every table sound. */
  lemma RoundSound(rule: Rule, net: Net, adj: Adjacency)
    requires SoundNet(net, adj)
    ensures SoundNet(RoundOf(rule, net, adj), adj)
  {
    var r := RoundOf(rule, net, adj);
    forall n | n in r.tables
      ensures Sound(adj, n, r.tables[n])
    {
      var heard := Snapshots(net, Advertisers(net, adj, net.tables.Keys, n));
      assert forall s :: s in heard ==> heard[s] == net.tables[s];
      RelaxAllSound(adj, rule, net.tables[n], n, heard);
      assert r.tables[n] == RoundTable(rule, net, adj, n);
    }
  }

  /** Any number of rounds keeps every table sound. */
  lemma {:induction false} RoundsSound(rule: Rule, net: Net, adj: Adjacency, k: nat)
    requires SoundNet(net, adj)
    ensures SoundNet(Rounds(rule, net, adj, k), adj)
  {
    if k > 0 {
      var prev := Rounds(rule, net, adj, k - 1);
      RoundsSound(rule, net, adj, k - 1);
      RoundSound(rule, prev, adj);
      assert Rounds(rule, net, adj, k) == RoundOf(rule, prev, adj);
    }
  }

  /** A start-up cell holding a link's weight is the walk across that link. */
  lemma LinkCellSound(adj: Adjacency, n: Node, d: Node)
    requires LinkCost(Links(adj, n), d).Fin?
    ensures Reaches(adj, n, d, d, LinkCost(Links(adj, n), d).n)
  {
    LinksAreLinks(adj, n);
    Step(adj, n, d);
  }

  /** The tables built at start-up in almost1.py, DistanceVector.py and
      test.py are sound. */
  lemma StartedSound(names: set<Node>, adj: Adjacency)
    ensures SoundNet(Almost1.Started(names, adj), adj)
  {
    var net := Almost1.Started(names, adj);
    forall n | n in net.tables
      ensures Sound(adj, n, net.tables[n])
    {
      var t: Table := net.tables[n];
      assert t == Almost1.StartedTable(names, adj, n);
      forall d: Node, v: Node | d in t && v in t[d] && t[d][v].Fin?
        ensures Reaches(adj, n, v, d, t[d][v].n)
      {
        Almost1.StartedTableCell(names, adj, n, d, v);
        LinkCellSound(adj, n, d);
      }
    }
  }

  /** The tables almost4.py re-initialises after start-up and after every
      change to the graph are sound. */
  lemma ReinitialisedSound(names: set<Node>, adj: Adjacency)
    ensures SoundNet(Almost4.Reinitialised(names, adj), adj)
  {
    var net := Almost4.Reinitialised(names, adj);
    forall n | n in net.tables
      ensures Sound(adj, n, net.tables[n])
    {
      var t: Table := net.tables[n];
      forall d: Node, v: Node | d in t && v in t[d] && t[d][v].Fin?
        ensures Reaches(adj, n, v, d, t[d][v].n)
      {
        assert t[d] == Almost4.InitialRow(d, names - {n}, Links(adj, n));
        LinkCellSound(adj, n, d);
      }
    }
  }

  /** No estimate of a run from start-up is ever below the cost of a real
      walk: after any number of rounds under any rule, a finite cell [d][v]
      of router `n` is the weight of a walk from `n` over its link to `v` to
      `d`. */
  lemma {:induction false} StartedNeverUnderEstimates(rule: Rule, names: set<Node>, adj: Adjacency, k: nat, n: Node, d: Node, v: Node)
    requires var t := Rounds(rule, Almost1.Started(names, adj), adj, k).tables;
      n in t && d in t[n] && v in t[n][d] && t[n][d][v].Fin?
    ensures Reaches(adj, n, v, d, Rounds(rule, Almost1.Started(names, adj), adj, k).tables[n][d][v].n)
  {
    StartedSound(names, adj);
    RoundsSound(rule, Almost1.Started(names, adj), adj, k);
  }

  /** The same for almost4.py, whose every phase starts from freshly
      initialised tables. */
  lemma {:induction false} ReinitialisedNeverUnderEstimates(rule: Rule, names: set<Node>, adj: Adjacency, k: nat, n: Node, d: Node, v: Node)
    requires var t := Rounds(rule, Almost4.Reinitialised(names, adj), adj, k).tables;
      n in t && d in t[n] && v in t[n][d] && t[n][d][v].Fin?
    ensures Reaches(adj, n, v, d, Rounds(rule, Almost4.Reinitialised(names, adj), adj, k).tables[n][d][v].n)
  {
    ReinitialisedSound(names, adj);
    RoundsSound(rule, Almost4.Reinitialised(names, adj), adj, k);
  }
}
