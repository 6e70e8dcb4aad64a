/** The synchronous round every version runs, as values: the routers' tables and
    flags at a round's start, the snapshots the flagged routers send, and the
    closed form of the state after all of them are delivered. Sequential
    delivery in any order is proved to reach that closed form, so each version's
    round loop is specified by `RoundOf` under its own relaxation rule. */
module Exchange {
  import opened Common
  import opened Topology
  import opened Relaxation

  /** What a round reads and writes: every router's table and `changed` flag. */
  datatype Net = Net(tables: map<Node, Table>, flags: map<Node, bool>)

  /** Router tables have a row and a column for every other router. */
  ghost predicate Shaped(net: Net) {
    && net.flags.Keys == net.tables.Keys
    && forall n :: n in net.tables ==> Square(net.tables[n], net.tables.Keys - {n})
  }

  /** The routers among `senders` that advertise to `n` in a round: those
      flagged at the round's start that have `n` among their neighbours. */
  ghost function Advertisers(net: Net, adj: Adjacency, senders: set<Node>, n: Node): set<Node> {
    set s | s in senders && s in net.flags && net.flags[s] && n in Links(adj, s)
  }

  /** The tables of `senders` at the round's start, keyed by sender. */
  ghost function Snapshots(net: Net, senders: set<Node>): map<Node, Table> {
    map s | s in senders && s in net.tables :: net.tables[s]
  }

  /** Router `n`'s table after a round under `rule`: its old table relaxed
      through the snapshot of every router that advertises to it. */
  ghost function RoundTable(rule: Rule, net: Net, adj: Adjacency, n: Node): Table
    requires n in net.tables
  {
    RelaxAll(rule, net.tables[n], n, Snapshots(net, Advertisers(net, adj, net.tables.Keys, n)))
  }

  /** The state after one round: every router holds its `RoundTable`, and its
      flag says whether that differs from its table at the round's start. */
  ghost function RoundOf(rule: Rule, net: Net, adj: Adjacency): Net {
    Net(map n | n in net.tables :: RoundTable(rule, net, adj, n),
        map n | n in net.tables :: RoundTable(rule, net, adj, n) != net.tables[n])
  }

  /** The state after `k` rounds. */
  ghost function Rounds(rule: Rule, net: Net, adj: Adjacency, k: nat): Net {
    if k == 0 then net else RoundOf(rule, Rounds(rule, net, adj, k - 1), adj)
  }

  ghost predicate AnyFlag(f: map<Node, bool>) {
    exists n :: n in f && f[n]
  }

  /** With no router flagged nothing is sent, so a round changes nothing: the
      state a loop stops in for lack of flags is a fixed point of the round. */
  lemma RoundQuiescent(rule: Rule, net: Net, adj: Adjacency)
    requires net.flags.Keys == net.tables.Keys && !AnyFlag(net.flags)
    ensures RoundOf(rule, net, adj) == net
  {
    var r := RoundOf(rule, net, adj);
    forall n | n in net.tables
      ensures r.tables[n] == net.tables[n]
    {
      assert Snapshots(net, Advertisers(net, adj, net.tables.Keys, n)) == map[];
      RelaxAllEmpty(rule, net.tables[n], n);
    }
    MapsEqual(r.tables, net.tables);
    MapsEqual(r.flags, net.flags);
  }

  /** A round keeps every table square over the other routers. */
  lemma RoundKeepsShape(rule: Rule, net: Net, adj: Adjacency)
    requires Shaped(net)
    ensures Shaped(RoundOf(rule, net, adj))
  {
    var r := RoundOf(rule, net, adj);
    assert r.tables.Keys == net.tables.Keys && r.flags.Keys == net.tables.Keys;
    forall n | n in net.tables
      ensures Square(r.tables[n], net.tables.Keys - {n})
    {
      RelaxAllShape(rule, net.tables[n], n, Snapshots(net, Advertisers(net, adj, net.tables.Keys, n)));
    }
  }

  /** A round changes a cell only in the column of a router that advertised to
      this one, and never a diagonal (direct-link) cell. */
  lemma RoundTouchesHeardColumns(rule: Rule, net: Net, adj: Adjacency, n: Node, d: Node, v: Node)
    requires Shaped(net) && n in net.tables && d in net.tables[n] && v in net.tables[n][d]
    requires RoundOf(rule, net, adj).tables[n][d][v] != net.tables[n][d][v]
    ensures v != d && v != n && v in net.flags && net.flags[v] && n in Links(adj, v)
  {
    var t := net.tables[n];
    var heard := Snapshots(net, Advertisers(net, adj, net.tables.Keys, n));
    assert RoundOf(rule, net, adj).tables[n][d][v] == RelaxedCell(rule, t, n, heard, d, v);
  }

  /** One advertisement queued in a round: receiver, sender, sender's table. */
  datatype Update = Update(receiver: Node, sender: Node, snap: Table)

  /** The routers that the first `k` queued updates send to `n`. */
  function SendersTo(us: seq<Update>, k: nat, n: Node): set<Node>
    requires k <= |us|
  {
    if k == 0 then {} else SendersTo(us, k - 1, n) + if us[k - 1].receiver == n then {us[k - 1].sender} else {}
  }

  /** Only the first `k` updates matter. */
  lemma {:induction false} SendersToPrefix(us: seq<Update>, vs: seq<Update>, k: nat, n: Node)
    requires k <= |us| && k <= |vs|
    requires forall i :: 0 <= i < k ==> us[i] == vs[i]
    ensures SendersTo(us, k, n) == SendersTo(vs, k, n)
  {
    if k > 0 {
      SendersToPrefix(us, vs, k - 1, n);
    }
  }

  /** Every queued update carries its sender's table as it was at the start of
      the round. */
  ghost predicate Carried(us: seq<Update>, net: Net) {
    forall k :: 0 <= k < |us| ==> us[k].sender in net.tables && us[k].snap == net.tables[us[k].sender]
  }

  /** Queueing one more update that carries its sender's table keeps the queue
      carried. */
  lemma CarriedAppend(us: seq<Update>, u: Update, net: Net)
    requires Carried(us, net)
    requires u.sender in net.tables && u.snap == net.tables[u.sender]
    ensures Carried(us + [u], net)
  {
    forall k | 0 <= k < |us| + 1
      ensures (us + [u])[k] == if k < |us| then us[k] else u
    {
    }
  }

  /** Every queued update is addressed to a router. */
  ghost predicate ToRouters(us: seq<Update>, net: Net) {
    forall k :: 0 <= k < |us| ==> us[k].receiver in net.tables
  }

  /** Queueing one more update addressed to a router keeps the queue addressed
      to routers. */
  lemma ToRoutersAppend(us: seq<Update>, u: Update, net: Net)
    requires ToRouters(us, net) && u.receiver in net.tables
    ensures ToRouters(us + [u], net)
  {
    forall k | 0 <= k < |us| + 1
      ensures (us + [u])[k] == if k < |us| then us[k] else u
    {
    }
  }

  /** Visiting one more router adds it to the advertisers of each of its
      neighbours exactly when it is flagged. */
  lemma AdvertisersAdd(net: Net, adj: Adjacency, senders: set<Node>, n: Node)
    ensures forall m ::
      Advertisers(net, adj, senders + {n}, m) ==
      Advertisers(net, adj, senders, m) + if n in net.flags && net.flags[n] && m in Links(adj, n) then {n} else {}
  {
  }

  /** `queued` extends `updates` with a copy of `n`'s table for every router in
      `done`. */
  ghost predicate QueuedFor(queued: seq<Update>, updates: seq<Update>, net: Net, n: Node, done: set<Node>) {
    forall m :: m in net.tables ==> SendersTo(queued, |queued|, m) == SendersTo(updates, |updates|, m) + if m in done then {n} else {}
  }

  /** Queueing one more copy of `n`'s table extends `done` by its receiver. */
  lemma QueueOne(queued: seq<Update>, updates: seq<Update>, net: Net, n: Node, done: set<Node>, neighbor: Node)
    requires n in net.tables
    requires Carried(queued, net) && QueuedFor(queued, updates, net, n, done)
    ensures Carried(queued + [Update(neighbor, n, net.tables[n])], net)
    ensures QueuedFor(queued + [Update(neighbor, n, net.tables[n])], updates, net, n, done + {neighbor})
  {
    CarriedAppend(queued, Update(neighbor, n, net.tables[n]), net);
    QueuedOne(queued, updates, net, n, done, Update(neighbor, n, net.tables[n]));
  }

  lemma QueuedOne(queued: seq<Update>, updates: seq<Update>, net: Net, n: Node, done: set<Node>, u: Update)
    requires u.sender == n && QueuedFor(queued, updates, net, n, done)
    ensures QueuedFor(queued + [u], updates, net, n, done + {u.receiver})
  {
    var longer := queued + [u];
    forall m | m in net.tables
      ensures SendersTo(longer, |longer|, m) == SendersTo(updates, |updates|, m) + if m in done + {u.receiver} then {n} else {}
    {
      SendersToPrefix(queued, longer, |queued|, m);
    }
  }

  /** A neighbour that is not a router receives nothing. */
  lemma QueueSkip(queued: seq<Update>, updates: seq<Update>, net: Net, n: Node, done: set<Node>, neighbor: Node)
    requires neighbor !in net.tables && QueuedFor(queued, updates, net, n, done)
    ensures QueuedFor(queued, updates, net, n, done + {neighbor})
  {
  }

  /** Raising one flag raises the disjunction of all of them by the same amount. */
  lemma AnyFlagRaise(f: map<Node, bool>, m: Node, x: bool)
    requires m in f
    ensures AnyFlag(f[m := f[m] || x]) == (AnyFlag(f) || x)
  {
    if AnyFlag(f) {
      var n :| n in f && f[n];
      assert f[m := f[m] || x][n];
    }
    if x {
      assert f[m := f[m] || x][m];
    }
  }

  /** The closed form for router `m` once the snapshots of `senders` have been
      delivered to it: its table is its start-of-round table relaxed through
      them, and it is flagged exactly when that differs from its start-of-round
      table. */
  ghost predicate DeliveredAt(rule: Rule, net0: Net, m: Node, senders: set<Node>, t: Table, flag: bool)
    requires m in net0.tables
  {
    && t == RelaxAll(rule, net0.tables[m], m, Snapshots(net0, senders))
    && flag == (t != net0.tables[m])
  }

  /** The state after delivering the first `k` queued updates, in closed form for
      every router. */
  ghost predicate Delivered(rule: Rule, net0: Net, us: seq<Update>, k: nat, tables: map<Node, Table>, flags: map<Node, bool>)
    requires k <= |us|
  {
    && tables.Keys == net0.tables.Keys && flags.Keys == net0.tables.Keys
    && forall m :: m in net0.tables ==> DeliveredAt(rule, net0, m, SendersTo(us, k, m), tables[m], flags[m])
  }

  /** Part-way through delivery every table is still square over the other
      routers, so each receiving loop can index every cell it writes. */
  lemma DeliveredSquare(rule: Rule, net0: Net, us: seq<Update>, k: nat, tables: map<Node, Table>, flags: map<Node, bool>, m: Node)
    requires Shaped(net0) && k <= |us| && m in net0.tables
    requires Delivered(rule, net0, us, k, tables, flags)
    ensures Square(tables[m], net0.tables.Keys - {m})
  {
    assert DeliveredAt(rule, net0, m, SendersTo(us, k, m), tables[m], flags[m]);
    RelaxAllShape(rule, net0.tables[m], m, Snapshots(net0, SendersTo(us, k, m)));
  }

  /** Delivering update `k` to its receiver moves the closed form from the first
      `k` updates to the first `k + 1`: sequential delivery in any order agrees
      with the order-free round. */
  lemma DeliveredStep(rule: Rule, net0: Net, us: seq<Update>, k: nat, tables: map<Node, Table>, flags: map<Node, bool>,
                      tables': map<Node, Table>, flags': map<Node, bool>)
    requires Shaped(net0) && Carried(us, net0) && k < |us| && us[k].receiver in net0.tables
    requires Delivered(rule, net0, us, k, tables, flags)
    requires
      var r := us[k].receiver;
      var t := RelaxOne(rule, tables[r], r, us[k].sender, us[k].snap);
      tables' == tables[r := t] && flags' == flags[r := flags[r] || t != tables[r]]
    ensures Delivered(rule, net0, us, k + 1, tables', flags')
  {
    var r := us[k].receiver;
    var t := RelaxOne(rule, tables[r], r, us[k].sender, us[k].snap);
    assert DeliveredAt(rule, net0, r, SendersTo(us, k, r), tables[r], flags[r]);
    ReceiverUpdate(rule, net0, us, k, tables[r], flags[r], t, flags[r] || t != tables[r]);
    OthersStep(rule, net0, us, k, tables, flags);
    DeliveredGather(rule, net0, us, k + 1, tables, flags, r, t, flags[r] || t != tables[r]);
  }

  /** An update whose receiver is not a router is dropped and changes nothing. */
  lemma DroppedStep(rule: Rule, net0: Net, us: seq<Update>, k: nat, tables: map<Node, Table>, flags: map<Node, bool>)
    requires k < |us| && us[k].receiver !in net0.tables
    requires Delivered(rule, net0, us, k, tables, flags)
    ensures Delivered(rule, net0, us, k + 1, tables, flags)
  {
    forall m | m in net0.tables
      ensures DeliveredAt(rule, net0, m, SendersTo(us, k + 1, m), tables[m], flags[m])
    {
      OtherStep(rule, net0, us, k, m, tables[m], flags[m]);
    }
  }

  /** Every router other than the receiver keeps its closed form. */
  lemma OthersStep(rule: Rule, net0: Net, us: seq<Update>, k: nat, tables: map<Node, Table>, flags: map<Node, bool>)
    requires k < |us| && Delivered(rule, net0, us, k, tables, flags)
    ensures forall m :: m in net0.tables && m != us[k].receiver ==>
      DeliveredAt(rule, net0, m, SendersTo(us, k + 1, m), tables[m], flags[m])
  {
    forall m | m in net0.tables && m != us[k].receiver
      ensures DeliveredAt(rule, net0, m, SendersTo(us, k + 1, m), tables[m], flags[m])
    {
      OtherStep(rule, net0, us, k, m, tables[m], flags[m]);
    }
  }

  /** Replacing the receiver's table and flag by ones in closed form gives the
      closed form for everyone. */
  lemma DeliveredGather(rule: Rule, net0: Net, us: seq<Update>, k: nat, tables: map<Node, Table>, flags: map<Node, bool>,
                        r: Node, t: Table, f: bool)
    requires k <= |us| && r in net0.tables
    requires tables.Keys == net0.tables.Keys && flags.Keys == net0.tables.Keys
    requires DeliveredAt(rule, net0, r, SendersTo(us, k, r), t, f)
    requires forall m :: m in net0.tables && m != r ==> DeliveredAt(rule, net0, m, SendersTo(us, k, m), tables[m], flags[m])
    ensures Delivered(rule, net0, us, k, tables[r := t], flags[r := f])
  {
    var tables', flags' := tables[r := t], flags[r := f];
    assert tables'.Keys == net0.tables.Keys && flags'.Keys == net0.tables.Keys;
    forall m | m in net0.tables
      ensures DeliveredAt(rule, net0, m, SendersTo(us, k, m), tables'[m], flags'[m])
    {
      if m != r {
        assert tables'[m] == tables[m] && flags'[m] == flags[m];
      }
    }
  }

  /** Routers other than the receiver of update `k` keep their closed form. */
  lemma OtherStep(rule: Rule, net0: Net, us: seq<Update>, k: nat, m: Node, t: Table, flag: bool)
    requires k < |us| && m in net0.tables && m != us[k].receiver
    requires DeliveredAt(rule, net0, m, SendersTo(us, k, m), t, flag)
    ensures DeliveredAt(rule, net0, m, SendersTo(us, k + 1, m), t, flag)
  {
    assert SendersTo(us, k + 1, m) == SendersTo(us, k, m);
  }

  /** The receiver of update `k` takes its sender's snapshot. */
  lemma ReceiverUpdate(rule: Rule, net0: Net, us: seq<Update>, k: nat, before: Table, flag: bool, after: Table, flag': bool)
    requires Shaped(net0) && Carried(us, net0) && k < |us| && us[k].receiver in net0.tables
    requires DeliveredAt(rule, net0, us[k].receiver, SendersTo(us, k, us[k].receiver), before, flag)
    requires after == RelaxOne(rule, before, us[k].receiver, us[k].sender, us[k].snap)
    requires flag' == (flag || after != before)
    ensures DeliveredAt(rule, net0, us[k].receiver, SendersTo(us, k + 1, us[k].receiver), after, flag')
  {
    var u := us[k];
    assert SendersTo(us, k + 1, u.receiver) == SendersTo(us, k, u.receiver) + {u.sender};
    ReceiverStep(rule, net0, u.receiver, SendersTo(us, k, u.receiver), u.sender, before, flag, after, flag');
  }

  /** Delivering the snapshot of one more sender `s` to router `m`, as the
      receiving method of each version does, keeps the closed form with `s`
      added to the senders. */
  lemma ReceiverStep(rule: Rule, net0: Net, m: Node, senders: set<Node>, s: Node,
                     before: Table, flag: bool, after: Table, flag': bool)
    requires Shaped(net0) && m in net0.tables && s in net0.tables
    requires DeliveredAt(rule, net0, m, senders, before, flag)
    requires after == RelaxOne(rule, before, m, s, net0.tables[s])
    requires flag' == (flag || after != before)
    ensures DeliveredAt(rule, net0, m, senders + {s}, after, flag')
  {
    DeliverStep(rule, net0, m, senders, s);
  }

  /** Before any delivery the closed form holds with no sender and every flag
      cleared. */
  lemma DeliveredStart(rule: Rule, net0: Net, us: seq<Update>, cleared: map<Node, bool>)
    requires cleared.Keys == net0.tables.Keys && !AnyFlag(cleared)
    ensures Delivered(rule, net0, us, 0, net0.tables, cleared)
  {
    forall m | m in net0.tables
      ensures DeliveredAt(rule, net0, m, SendersTo(us, 0, m), net0.tables[m], cleared[m])
    {
      NothingDelivered(rule, net0, m, cleared[m]);
    }
  }

  /** A router that has been sent nothing holds its start-of-round table. */
  lemma NothingDelivered(rule: Rule, net0: Net, m: Node, flag: bool)
    requires m in net0.tables && !flag
    ensures DeliveredAt(rule, net0, m, {}, net0.tables[m], flag)
  {
    assert Snapshots(net0, {}) == map[];
    RelaxAllEmpty(rule, net0.tables[m], m);
  }

  /** One delivery in closed form: relaxing the receiver's partial result through
      one more sender's snapshot is the result with that sender added, and the
      receiver's flag afterwards says whether its table differs from the round's
      start. */
  lemma DeliverStep(rule: Rule, net: Net, m: Node, senders: set<Node>, s: Node)
    requires Shaped(net) && m in net.tables && s in net.tables
    ensures
      var t0 := net.tables[m];
      var before := RelaxAll(rule, t0, m, Snapshots(net, senders));
      var after := RelaxAll(rule, t0, m, Snapshots(net, senders + {s}));
      && RelaxOne(rule, before, m, s, net.tables[s]) == after
      && ((before != t0 || after != before) == (after != t0))
  {
    var inbox := Snapshots(net, senders);
    assert Snapshots(net, senders + {s}) == inbox[s := net.tables[s]];
    SnapshotUsable(rule, net, m, s);
    RelaxAllStep(rule, net.tables[m], m, inbox, s, net.tables[s]);
    DeliveryFlag(rule, net.tables[m], m, inbox, s, net.tables[s]);
  }

  /** In a well-shaped state any router's table can be delivered to any other:
      the rows Python's `min` reads are non-empty and every cell the relaxation
      writes already exists. */
  lemma SnapshotUsable(rule: Rule, net: Net, m: Node, s: Node)
    requires Shaped(net) && m in net.tables && s in net.tables
    ensures forall d :: d in net.tables[s] && d != s ==> net.tables[s][d] != map[]
    ensures ColumnPresent(rule, net.tables[m], m, s, net.tables[s])
  {
    forall d | d in net.tables[s] && d != s
      ensures d in net.tables[s][d]
    {
    }
  }

  /** After the whole queue is delivered the closed form is the round's result:
      the routers that sent to each receiver are exactly its advertisers. */
  lemma RoundClosed(rule: Rule, net: Net, adj: Adjacency, updates: seq<Update>, tables: map<Node, Table>, flags: map<Node, bool>)
    requires Delivered(rule, net, updates, |updates|, tables, flags)
    requires forall m :: m in net.tables ==> SendersTo(updates, |updates|, m) == Advertisers(net, adj, net.tables.Keys, m)
    ensures Net(tables, flags) == RoundOf(rule, net, adj)
  {
    forall m | m in net.tables
      ensures tables[m] == RoundTable(rule, net, adj, m) && flags[m] == (RoundTable(rule, net, adj, m) != net.tables[m])
    {
      assert DeliveredAt(rule, net, m, SendersTo(updates, |updates|, m), tables[m], flags[m]);
    }
    RoundGather(rule, net, adj, tables, flags);
  }

  /** Tables and flags that agree with the round router by router are the round. */
  lemma RoundGather(rule: Rule, net: Net, adj: Adjacency, tables: map<Node, Table>, flags: map<Node, bool>)
    requires tables.Keys == net.tables.Keys && flags.Keys == net.tables.Keys
    requires forall m :: m in net.tables ==>
      tables[m] == RoundTable(rule, net, adj, m) && flags[m] == (RoundTable(rule, net, adj, m) != net.tables[m])
    ensures Net(tables, flags) == RoundOf(rule, net, adj)
  {
    var r := RoundOf(rule, net, adj);
    MapsEqual(tables, r.tables);
    MapsEqual(flags, r.flags);
  }


  // ---------------------------------------------------------------------------
  // The sending half of a round in almost4.py and almost1.py

  /** The sending loop: every flagged router queues a copy of its table for each
      neighbour (only for the neighbours that are routers when `routersOnly`, as
      almost4.py does; for every neighbour otherwise, as almost1.py does), and has
      its flag cleared. */
  method CollectUpdates(net: Net, adj: Adjacency, routersOnly: bool) returns (updates: seq<Update>, cleared: map<Node, bool>)
    requires net.flags.Keys == net.tables.Keys
    ensures Carried(updates, net) && (routersOnly ==> ToRouters(updates, net))
    ensures forall m :: m in net.tables ==> SendersTo(updates, |updates|, m) == Advertisers(net, adj, net.tables.Keys, m)
    ensures cleared.Keys == net.flags.Keys && !AnyFlag(cleared)
  {
    updates := [];
    cleared := net.flags;
    var pending := net.tables.Keys;
    while pending != {}
      invariant pending <= net.tables.Keys
      invariant Collected(net, adj, routersOnly, updates, cleared, pending)
      decreases pending
    {
      updates, cleared, pending := CollectNext(net, adj, routersOnly, updates, cleared, pending);
    }
    assert net.tables.Keys - pending == net.tables.Keys;
  }

  /** The sending loop has visited the routers outside `pending`: each flagged
      one has queued its copies and been cleared, the others are untouched. */
  ghost predicate Collected(net: Net, adj: Adjacency, routersOnly: bool, updates: seq<Update>, cleared: map<Node, bool>, pending: set<Node>) {
    && cleared.Keys == net.tables.Keys
    && (forall n :: n in cleared ==> cleared[n] == (n in pending && n in net.flags && net.flags[n]))
    && Carried(updates, net) && (routersOnly ==> ToRouters(updates, net))
    && forall m :: m in net.tables ==> SendersTo(updates, |updates|, m) == Advertisers(net, adj, net.tables.Keys - pending, m)
  }

  /** One pass of the sending loop: a router not yet visited sends when flagged. */
  method CollectNext(net: Net, adj: Adjacency, routersOnly: bool, updates: seq<Update>, cleared: map<Node, bool>, pending: set<Node>)
    returns (updates': seq<Update>, cleared': map<Node, bool>, pending': set<Node>)
    requires net.flags.Keys == net.tables.Keys && pending != {} && pending <= net.tables.Keys
    requires Collected(net, adj, routersOnly, updates, cleared, pending)
    ensures pending' < pending && Collected(net, adj, routersOnly, updates', cleared', pending')
  {
    var n :| n in pending;
    updates', cleared' := updates, cleared;
    if cleared[n] {
      updates' := QueueCopies(net, adj, routersOnly, n, updates);
      cleared' := cleared[n := false];
    }
    CollectedStep(net, adj, routersOnly, updates, cleared, pending, n, updates', cleared');
    pending' := pending - {n};
  }

  /** Visiting router `n` keeps the sending loop's invariant, whether `n`
      sent (it was flagged) or not. */
  lemma CollectedStep(net: Net, adj: Adjacency, routersOnly: bool, updates: seq<Update>, cleared: map<Node, bool>,
                      pending: set<Node>, n: Node, updates': seq<Update>, cleared': map<Node, bool>)
    requires net.flags.Keys == net.tables.Keys && n in pending && pending <= net.tables.Keys
    requires Collected(net, adj, routersOnly, updates, cleared, pending)
    requires Carried(updates', net) && (routersOnly ==> ToRouters(updates', net))
    requires cleared' == if cleared[n] then cleared[n := false] else cleared
    requires forall m :: m in net.tables ==>
      SendersTo(updates', |updates'|, m) == SendersTo(updates, |updates|, m) + if cleared[n] && m in Links(adj, n) then {n} else {}
    ensures Collected(net, adj, routersOnly, updates', cleared', pending - {n})
  {
    ClearedStep(net, cleared, pending, n, cleared');
    SendersStep(net, adj, updates, updates', pending, n, cleared[n]);
  }

  /** The queue after visiting router `n` holds a copy from every router
      visited so far that was flagged, for each of its neighbours. */
  lemma SendersStep(net: Net, adj: Adjacency, updates: seq<Update>, updates': seq<Update>, pending: set<Node>, n: Node,
                    flagged: bool)
    requires n in pending && pending <= net.tables.Keys && flagged == (n in net.flags && net.flags[n])
    requires forall m :: m in net.tables ==>
      SendersTo(updates, |updates|, m) == Advertisers(net, adj, net.tables.Keys - pending, m)
    requires forall m :: m in net.tables ==>
      SendersTo(updates', |updates'|, m) == SendersTo(updates, |updates|, m) + if flagged && m in Links(adj, n) then {n} else {}
    ensures forall m :: m in net.tables ==>
      SendersTo(updates', |updates'|, m) == Advertisers(net, adj, net.tables.Keys - (pending - {n}), m)
  {
    var names := net.tables.Keys;
    AdvertisersAdd(net, adj, names - pending, n);
    assert names - (pending - {n}) == (names - pending) + {n};
  }

  /** Visiting router `n` clears its flag and no other. */
  lemma ClearedStep(net: Net, cleared: map<Node, bool>, pending: set<Node>, n: Node, cleared': map<Node, bool>)
    requires n in pending && n in cleared
    requires forall m :: m in cleared ==> cleared[m] == (m in pending && m in net.flags && net.flags[m])
    requires cleared' == if cleared[n] then cleared[n := false] else cleared
    ensures cleared'.Keys == cleared.Keys
    ensures forall m :: m in cleared' ==> cleared'[m] == (m in pending - {n} && m in net.flags && net.flags[m])
  {
  }

  /** The inner loop of the sending half: a copy of router `n`'s table queued
      for every neighbour of `n` (that is a router, when `routersOnly`). */
  method QueueCopies(net: Net, adj: Adjacency, routersOnly: bool, n: Node, updates: seq<Update>) returns (queued: seq<Update>)
    requires n in net.tables && Carried(updates, net) && (routersOnly ==> ToRouters(updates, net))
    ensures Carried(queued, net) && (routersOnly ==> ToRouters(queued, net))
    ensures forall m :: m in net.tables ==>
      SendersTo(queued, |queued|, m) == SendersTo(updates, |updates|, m) + if m in Links(adj, n) then {n} else {}
  {
    queued := updates;
    var links := Links(adj, n);
    var neighbors := links.Keys;
    while neighbors != {}
      invariant neighbors <= links.Keys
      invariant Carried(queued, net) && (routersOnly ==> ToRouters(queued, net))
      invariant QueuedFor(queued, updates, net, n, links.Keys - neighbors)
      decreases neighbors
    {
      queued, neighbors := QueueNext(net, routersOnly, links.Keys, n, updates, queued, neighbors);
    }
    assert links.Keys - neighbors == links.Keys;
  }

  /** One pass of the inner loop: take a neighbour not yet visited and queue a
      copy of `n`'s table for it (only when it is a router, if `routersOnly`). */
  method QueueNext(net: Net, routersOnly: bool, nbrs: set<Node>, n: Node, updates: seq<Update>, queued: seq<Update>, neighbors: set<Node>)
    returns (queued': seq<Update>, neighbors': set<Node>)
    requires n in net.tables && neighbors != {} && neighbors <= nbrs
    requires Carried(queued, net) && (routersOnly ==> ToRouters(queued, net)) && QueuedFor(queued, updates, net, n, nbrs - neighbors)
    ensures neighbors' < neighbors
    ensures Carried(queued', net) && (routersOnly ==> ToRouters(queued', net)) && QueuedFor(queued', updates, net, n, nbrs - neighbors')
  {
    var neighbor :| neighbor in neighbors;
    queued' := queued;
    ghost var done := nbrs - neighbors;
    if !routersOnly || neighbor in net.tables {
      var copy := CopyTable(net.tables[n]);
      QueueOne(queued, updates, net, n, done, neighbor);
      if routersOnly {
        ToRoutersAppend(queued, Update(neighbor, n, copy), net);
      }
      queued' := queued + [Update(neighbor, n, copy)];
    } else {
      QueueSkip(queued, updates, net, n, done, neighbor);
    }
    assert nbrs - (neighbors - {neighbor}) == done + {neighbor};
    neighbors' := neighbors - {neighbor};
  }
}
