/** DistanceVector.py and test.py: one engine in two spellings. Every router
    keeps an inbox; a round first lets every flagged router append a copy of
    its table to the inbox of each neighbouring router, then lets every router
    work through its inbox in order. After the UPDATE section each router is
    resynchronised with the graph and seeded from its neighbours' routing
    tables, and is flagged unconditionally. The two files differ in the order
    of their tables (sorted against input order) and in the snapshot the
    second convergence loop compares its first round with. */
module Queued {
  import opened Common
  import opened Topology
  import opened Relaxation
  import opened Exchange
  import Almost1

  /** An inbox entry: the sender's name and a copy of its table. */
  datatype Message = Message(sender: Node, snap: Table)

  /** The senders of the messages in `inbox`. */
  function SendersIn(inbox: seq<Message>): set<Node>
    decreases |inbox|
  {
    if inbox == [] then {} else SendersIn(inbox[..|inbox| - 1]) + {inbox[|inbox| - 1].sender}
  }

  lemma SendersInAppend(inbox: seq<Message>, m: Message)
    ensures SendersIn(inbox + [m]) == SendersIn(inbox) + {m.sender}
  {
    assert (inbox + [m])[..|inbox|] == inbox;
  }

  /** Every message in `inbox` carries its sender's table as it was when the
      round started. */
  ghost predicate CarriedIn(inbox: seq<Message>, net: Net) {
    forall i :: 0 <= i < |inbox| ==> inbox[i].sender in net.tables && inbox[i].snap == net.tables[inbox[i].sender]
  }

  lemma CarriedInAppend(inbox: seq<Message>, m: Message, net: Net)
    requires CarriedIn(inbox, net) && m.sender in net.tables && m.snap == net.tables[m.sender]
    ensures CarriedIn(inbox + [m], net)
  {
    forall i | 0 <= i < |inbox| + 1
      ensures (inbox + [m])[i] == if i < |inbox| then inbox[i] else m
    {
    }
  }

  // ---------------------------------------------------------------------------
  // `process_received_tables` / `process_updates`

  /** The table and flag after the messages of `inbox` have been handled in
      order: each relaxes the sender's column under the rule of these files,
      and the flag is raised by every message that changed the table. */
  ghost function ProcessedInOrder(t: Table, flag: bool, self: Node, inbox: seq<Message>): (Table, bool)
    decreases |inbox|
  {
    if inbox == [] then (t, flag)
    else
      var p := ProcessedInOrder(t, flag, self, inbox[..|inbox| - 1]);
      var m := inbox[|inbox| - 1];
      var t' := RelaxOne(ExistingColumn, p.0, self, m.sender, m.snap);
      (t', p.1 || t' != p.0)
  }

  /** Every cell the handling of `m` reads exists: when the sender has a
      column, the received table has a row for every other destination. */
  ghost predicate Readable(keys: set<Node>, m: Message) {
    m.sender in keys ==> forall d :: d in keys && d != m.sender ==> d in m.snap
  }

  /** The cost part of `find_min_cost` / `min_cost` on a received row: the
      first strictly smaller cost, starting from infinity, which is the row's
      minimum whatever the order of the scan (infinity for an empty row). */
  method MinCost(row: Row) returns (c: Cost)
    ensures c == MinOf(row)
  {
    if row == map[] {
      MinUnique(Inf, MinOf(row), row);
      c := Inf;
    } else {
      c := MinValue(row);
    }
  }

  /** One message from `s` carrying `snap`: for every destination other than
      the sender whose row has the sender as a via, the cell becomes the cost
      to the sender plus the sender's minimum for that destination; the flag
      is raised when a cell changes. */
  method ProcessMessage(self: Node, t: Table, flag: bool, s: Node, snap: Table, ghost keys: set<Node>)
    returns (t': Table, flag': bool)
    requires Square(t, keys) && Readable(keys, Message(s, snap))
    ensures t' == RelaxOne(ExistingColumn, t, self, s, snap) && flag' == (flag || t' != t)
  {
    var r := t;
    flag' := flag;
    var rest := t.Keys;
    RelaxedEnds(ExistingColumn, t, self, s, snap, r);
    while rest != {}
      invariant RelaxedExcept(ExistingColumn, t, self, s, snap, r, rest)
      invariant flag' == (flag || r != t)
      decreases rest
    {
      r, flag', rest := ProcessNext(self, t, flag, s, snap, keys, r, flag', rest);
    }
    RelaxedEnds(ExistingColumn, t, self, s, snap, r);
    t' := r;
  }

  /** One destination of the message loop. */
  method ProcessNext(self: Node, t: Table, c0: bool, s: Node, snap: Table, ghost keys: set<Node>,
                     r: Table, c: bool, rest: set<Node>)
    returns (r': Table, c': bool, rest': set<Node>)
    requires Square(t, keys) && Readable(keys, Message(s, snap))
    requires rest != {} && RelaxedExcept(ExistingColumn, t, self, s, snap, r, rest) && c == (c0 || r != t)
    ensures rest' < rest
    ensures RelaxedExcept(ExistingColumn, t, self, s, snap, r', rest') && c' == (c0 || r' != t)
  {
    var dest :| dest in rest;
    rest' := rest - {dest};
    RelaxedFlagStep(ExistingColumn, t, self, s, snap, r, rest, dest, c0, c);
    r', c' := r, c;
    if dest != s && s in r[dest] {
      ProcessFacts(self, t, s, snap, keys, r, rest, dest);
      var costToSender := r[s][s];
      var prevCost := r[dest][s];
      var viaSender := MinCost(snap[dest]);
      var total := Add(costToSender, viaSender);
      r' := r[dest := r[dest][s := total]];
      if prevCost != total {
        c' := true;
      }
    }
  }

  /** A cell the message loop writes: the sender's diagonal is still the
      original one and the received table has the row that is read. */
  lemma ProcessFacts(self: Node, t: Table, s: Node, snap: Table, keys: set<Node>, r: Table, rest: set<Node>, dest: Node)
    requires Square(t, keys) && Readable(keys, Message(s, snap))
    requires dest in rest && RelaxedExcept(ExistingColumn, t, self, s, snap, r, rest)
    requires dest != s && s in r[dest]
    ensures s in r && s in r[s] && r[s][s] == t[s][s] && dest in snap
    ensures Candidate(ExistingColumn, t, self, s, dest, snap) == Some(Add(t[s][s], MinOf(snap[dest])))
  {
    assert r[dest] == t[dest];
    assert s in keys;
    RelaxOneAt(ExistingColumn, t, self, s, snap, s);
    assert r[s] == t[s];
  }

  /** The inbox loop: the messages in order; the inbox is emptied by the caller. */
  method ProcessInbox(self: Node, t: Table, flag: bool, inbox: seq<Message>, ghost keys: set<Node>)
    returns (t': Table, flag': bool)
    requires Square(t, keys) && forall i :: 0 <= i < |inbox| ==> Readable(keys, inbox[i])
    ensures (t', flag') == ProcessedInOrder(t, flag, self, inbox)
    ensures Square(t', keys)
  {
    t', flag' := t, flag;
    var i := 0;
    while i < |inbox|
      invariant 0 <= i <= |inbox|
      invariant (t', flag') == ProcessedInOrder(t, flag, self, inbox[..i]) && Square(t', keys)
    {
      assert inbox[..i + 1][..i] == inbox[..i];
      ghost var before := t';
      t', flag' := ProcessMessage(self, t', flag', inbox[i].sender, inbox[i].snap, keys);
      RelaxOneKeepsSquare(ExistingColumn, before, keys, self, inbox[i].sender, inbox[i].snap);
      i := i + 1;
    }
    assert inbox[..|inbox|] == inbox;
  }

  /** Handling an inbox of round-start copies in order reaches the order-free
      closed form of the round: the start table relaxed through the senders'
      snapshots, flagged exactly when it changed. */
  lemma {:induction false} InboxDelivered(net0: Net, m: Node, inbox: seq<Message>)
    requires Shaped(net0) && m in net0.tables && CarriedIn(inbox, net0)
    ensures var p := ProcessedInOrder(net0.tables[m], false, m, inbox);
      DeliveredAt(ExistingColumn, net0, m, SendersIn(inbox), p.0, p.1)
    decreases |inbox|
  {
    if inbox == [] {
      NothingDelivered(ExistingColumn, net0, m, false);
    } else {
      var prefix := inbox[..|inbox| - 1];
      var msg := inbox[|inbox| - 1];
      assert forall i :: 0 <= i < |prefix| ==> prefix[i] == inbox[i];
      InboxDelivered(net0, m, prefix);
      var p := ProcessedInOrder(net0.tables[m], false, m, prefix);
      var t' := RelaxOne(ExistingColumn, p.0, m, msg.sender, msg.snap);
      ReceiverStep(ExistingColumn, net0, m, SendersIn(prefix), msg.sender, p.0, p.1, t', p.1 || t' != p.0);
    }
  }

  // ---------------------------------------------------------------------------
  // `send_updates` / `propagate_updates`

  /** Router `s`, visited by the sending loop (in `done`), sends to router `m`:
      it was flagged and `m` is its neighbour. */
  ghost predicate SendsTo(net: Net, adj: Adjacency, done: set<Node>, s: Node, m: Node) {
    s in done && s in net.flags && net.flags[s] && m in Links(adj, s)
  }

  /** The inboxes after the routers in `done` have sent: every router's inbox
      holds round-start copies from exactly the routers that send to it. */
  ghost predicate Posted(net: Net, adj: Adjacency, done: set<Node>, inboxes: map<Node, seq<Message>>) {
    && inboxes.Keys == net.tables.Keys
    && forall m :: m in inboxes ==>
         && CarriedIn(inboxes[m], net)
         && forall s :: s in SendersIn(inboxes[m]) <==> SendsTo(net, adj, done, s, m)
  }

  /** Once every router has sent, each inbox's senders are the receiver's
      advertisers of the round. */
  lemma PostedAll(net: Net, adj: Adjacency, inboxes: map<Node, seq<Message>>, m: Node)
    requires Posted(net, adj, net.tables.Keys, inboxes) && m in inboxes
    ensures SendersIn(inboxes[m]) == Advertisers(net, adj, net.tables.Keys, m)
  {
    assert forall s :: s in Advertisers(net, adj, net.tables.Keys, m) <==> SendsTo(net, adj, net.tables.Keys, s, m);
  }

  /** The sending phase of a round: each flagged router appends a copy of its
      table to the inbox of every router that is its neighbour and has its
      flag cleared; the inboxes start empty. */
  method SendAll(net: Net, adj: Adjacency) returns (inboxes: map<Node, seq<Message>>, cleared: map<Node, bool>)
    requires net.flags.Keys == net.tables.Keys
    ensures Posted(net, adj, net.tables.Keys, inboxes)
    ensures cleared.Keys == net.tables.Keys && !AnyFlag(cleared)
  {
    inboxes := map m | m in net.tables :: [];
    cleared := net.flags;
    var pending := net.tables.Keys;
    ghost var done := {};
    NothingPosted(net, adj, inboxes);
    while pending != {}
      invariant forall n :: n in done <==> n in net.tables && n !in pending
      invariant pending <= net.tables.Keys
      invariant Posted(net, adj, done, inboxes)
      invariant ClearedExcept(net, cleared, pending)
      decreases pending
    {
      inboxes, cleared, pending, done := SendNext(net, adj, inboxes, cleared, pending, done);
    }
    assert done == net.tables.Keys;
    assert forall n :: n in cleared ==> !cleared[n];
  }

  /** The flags of the routers visited by the sending loop are cleared. */
  ghost predicate ClearedExcept(net: Net, cleared: map<Node, bool>, pending: set<Node>) {
    cleared.Keys == net.tables.Keys && forall n :: n in cleared ==> cleared[n] == (n in pending && n in net.flags && net.flags[n])
  }

  lemma NothingPosted(net: Net, adj: Adjacency, inboxes: map<Node, seq<Message>>)
    requires inboxes == map m | m in net.tables :: []
    ensures Posted(net, adj, {}, inboxes)
  {
    forall m | m in inboxes
      ensures SendersIn(inboxes[m]) == {}
    {
      assert inboxes[m] == [];
    }
  }

  /** One router of the sending loop. */
  method SendNext(net: Net, adj: Adjacency, inboxes: map<Node, seq<Message>>, cleared: map<Node, bool>,
                  pending: set<Node>, ghost done: set<Node>)
    returns (inboxes': map<Node, seq<Message>>, cleared': map<Node, bool>, pending': set<Node>, ghost done': set<Node>)
    requires net.flags.Keys == net.tables.Keys && pending != {} && pending <= net.tables.Keys
    requires forall n :: n in done <==> n in net.tables && n !in pending
    requires Posted(net, adj, done, inboxes) && ClearedExcept(net, cleared, pending)
    ensures pending' < pending && forall n :: n in done' <==> n in net.tables && n !in pending'
    ensures Posted(net, adj, done', inboxes') && ClearedExcept(net, cleared', pending')
  {
    var n :| n in pending;
    pending' := pending - {n};
    done' := done + {n};
    inboxes', cleared' := inboxes, cleared;
    if net.flags[n] {
      inboxes' := SendFrom(net, adj, done, n, inboxes);
      cleared' := cleared[n := false];
    } else {
      PostedSkip(net, adj, done, n, inboxes);
    }
  }

  /** A router that is not flagged sends nothing. */
  lemma PostedSkip(net: Net, adj: Adjacency, done: set<Node>, n: Node, inboxes: map<Node, seq<Message>>)
    requires n in net.flags && !net.flags[n] && Posted(net, adj, done, inboxes)
    ensures Posted(net, adj, done + {n}, inboxes)
  {
    assert forall s, m :: SendsTo(net, adj, done + {n}, s, m) <==> SendsTo(net, adj, done, s, m);
  }

  /** Part-way through router `n`'s sending loop: the routers visited so far
      that are neighbours of `n` have its copy appended. */
  ghost predicate SentTo(net: Net, adj: Adjacency, done: set<Node>, n: Node, inboxes: map<Node, seq<Message>>, pending: set<Node>) {
    && inboxes.Keys == net.tables.Keys
    && forall m :: m in inboxes ==>
         && CarriedIn(inboxes[m], net)
         && forall s :: s in SendersIn(inboxes[m]) <==>
              SendsTo(net, adj, done, s, m) || (s == n && m !in pending && m in Links(adj, n))
  }

  /** One flagged router `n` sends: the loop over the routers, appending to
      each neighbour's inbox. */
  method SendFrom(net: Net, adj: Adjacency, ghost done: set<Node>, n: Node, inboxes: map<Node, seq<Message>>)
    returns (inboxes': map<Node, seq<Message>>)
    requires n in net.tables && n in net.flags && net.flags[n]
    requires Posted(net, adj, done, inboxes)
    ensures Posted(net, adj, done + {n}, inboxes')
  {
    var neighbors := Links(adj, n);
    inboxes' := inboxes;
    var pending := net.tables.Keys;
    assert SentTo(net, adj, done, n, inboxes', pending);
    while pending != {}
      invariant pending <= net.tables.Keys && SentTo(net, adj, done, n, inboxes', pending)
      decreases pending
    {
      var r :| r in pending;
      if r in neighbors {
        SentStep(net, adj, done, n, inboxes', pending, r);
        inboxes' := inboxes'[r := inboxes'[r] + [Message(n, net.tables[n])]];
      } else {
        SentSkip(net, adj, done, n, inboxes', pending, r);
      }
      pending := pending - {r};
    }
    SentAll(net, adj, done, n, inboxes');
  }

  lemma SentStep(net: Net, adj: Adjacency, done: set<Node>, n: Node, inboxes: map<Node, seq<Message>>, pending: set<Node>, r: Node)
    requires n in net.tables && r in pending && pending <= net.tables.Keys && r in Links(adj, n)
    requires SentTo(net, adj, done, n, inboxes, pending)
    ensures SentTo(net, adj, done, n, inboxes[r := inboxes[r] + [Message(n, net.tables[n])]], pending - {r})
  {
    var msg := Message(n, net.tables[n]);
    SendersInAppend(inboxes[r], msg);
    CarriedInAppend(inboxes[r], msg, net);
  }

  lemma SentSkip(net: Net, adj: Adjacency, done: set<Node>, n: Node, inboxes: map<Node, seq<Message>>, pending: set<Node>, r: Node)
    requires r !in Links(adj, n) && SentTo(net, adj, done, n, inboxes, pending)
    ensures SentTo(net, adj, done, n, inboxes, pending - {r})
  {
  }

  lemma SentAll(net: Net, adj: Adjacency, done: set<Node>, n: Node, inboxes: map<Node, seq<Message>>)
    requires n in net.flags && net.flags[n] && SentTo(net, adj, done, n, inboxes, {})
    ensures Posted(net, adj, done + {n}, inboxes)
  {
    assert forall s, m :: SendsTo(net, adj, done + {n}, s, m) <==> SendsTo(net, adj, done, s, m) || (s == n && m in Links(adj, n));
  }

  // ---------------------------------------------------------------------------
  // A round

  /** Router `m`'s part of the processing phase: its cleared flag and its
      inbox of round-start copies, handled in order, give its row of the
      round. */
  method ProcessRouter(net: Net, adj: Adjacency, inboxes: map<Node, seq<Message>>, cleared: map<Node, bool>, m: Node)
    returns (t: Table, flag: bool)
    requires Shaped(net) && Posted(net, adj, net.tables.Keys, inboxes)
    requires cleared.Keys == net.tables.Keys && !AnyFlag(cleared) && m in net.tables
    ensures t == RoundOf(ExistingColumn, net, adj).tables[m] && flag == RoundOf(ExistingColumn, net, adj).flags[m]
  {
    var inbox := inboxes[m];
    ghost var keys := net.tables.Keys - {m};
    InboxReadable(net, keys, inbox);
    t, flag := ProcessInbox(m, net.tables[m], cleared[m], inbox, keys);
    InboxDelivered(net, m, inbox);
    PostedAll(net, adj, inboxes, m);
  }

  /** Round-start copies in a well-shaped network can be handled by any router:
      a sender that has a column has a row for every other router. */
  lemma InboxReadable(net: Net, keys: set<Node>, inbox: seq<Message>)
    requires Shaped(net) && CarriedIn(inbox, net) && keys <= net.tables.Keys
    ensures forall i :: 0 <= i < |inbox| ==> Readable(keys, inbox[i])
  {
    forall i | 0 <= i < |inbox|
      ensures Readable(keys, inbox[i])
    {
      var s := inbox[i].sender;
      assert Square(net.tables[s], net.tables.Keys - {s});
    }
  }

  /** The processing phase: every router handles its inbox in turn. Each
      router's handling reads and writes only its own table, flag and inbox,
      so the order of the routers does not matter. */
  method ProcessAll(net: Net, adj: Adjacency, inboxes: map<Node, seq<Message>>, cleared: map<Node, bool>)
    returns (next: Net)
    requires Shaped(net) && Posted(net, adj, net.tables.Keys, inboxes)
    requires cleared.Keys == net.tables.Keys && !AnyFlag(cleared)
    ensures next == RoundOf(ExistingColumn, net, adj)
  {
    ghost var r := RoundOf(ExistingColumn, net, adj);
    ReplacedEnds(net.tables, r.tables, net.tables);
    ReplacedEnds(net.flags, r.flags, net.flags);
    var tables, flags := net.tables, net.flags;
    var pending := net.tables.Keys;
    while pending != {}
      invariant ReplacedExcept(net.tables, r.tables, tables, pending)
      invariant ReplacedExcept(net.flags, r.flags, flags, pending)
      decreases pending
    {
      var m :| m in pending;
      var t, f := ProcessRouter(net, adj, inboxes, cleared, m);
      ReplacedStep(net.tables, r.tables, tables, pending, m);
      ReplacedStep(net.flags, r.flags, flags, pending, m);
      tables, flags := tables[m := t], flags[m := f];
      pending := pending - {m};
    }
    ReplacedEnds(net.tables, r.tables, tables);
    ReplacedEnds(net.flags, r.flags, flags);
    next := Net(tables, flags);
  }

  /** One round of the main loop: the sending phase, then the processing
      phase. It reaches the order-free round of these files. */
  method Round(net: Net, adj: Adjacency) returns (next: Net)
    requires Shaped(net)
    ensures next == RoundOf(ExistingColumn, net, adj) && Shaped(next)
  {
    var inboxes, cleared := SendAll(net, adj);
    next := ProcessAll(net, adj, inboxes, cleared);
    RoundKeepsShape(ExistingColumn, net, adj);
  }

  // ---------------------------------------------------------------------------
  // The convergence loop

  /** Why the convergence loop ended: every table equal to its copy, no router
      left flagged, or (in the model only) the round budget spent. */
  datatype Stop = Unchanged | Quiet | OutOfFuel

  /** The test `all(table == previous[name])`: every router's table equals
      its stored copy. */
  method SameTables(tables: map<Node, Table>, prev: map<Node, Table>) returns (same: bool)
    requires tables.Keys <= prev.Keys
    ensures same == forall n :: n in tables ==> tables[n] == prev[n]
  {
    same := true;
    var pending := tables.Keys;
    while pending != {}
      invariant pending <= tables.Keys
      invariant same == forall n :: n in tables && n !in pending ==> tables[n] == prev[n]
      decreases pending
    {
      var n :| n in pending;
      if tables[n] != prev[n] {
        same := false;
      }
      pending := pending - {n};
    }
  }

  /** The test `all(not flag)`: no router is flagged. */
  method NoneFlagged(flags: map<Node, bool>) returns (quiet: bool)
    ensures quiet == !AnyFlag(flags)
  {
    quiet := true;
    var pending := flags.Keys;
    while pending != {}
      invariant pending <= flags.Keys
      invariant quiet == forall n :: n in flags && n !in pending ==> !flags[n]
      decreases pending
    {
      var n :| n in pending;
      if flags[n] {
        quiet := false;
      }
      pending := pending - {n};
    }
  }

  /** The copy the `k`-th round of a run from `net` is compared with: the
      copy `prev` given to the loop for the first round, the tables after
      round `k - 1` for every later one. */
  ghost function ComparedWith(net: Net, adj: Adjacency, prev: map<Node, Table>, k: nat): map<Node, Table> {
    if k <= 1 then prev else Rounds(ExistingColumn, net, adj, k - 1).tables
  }

  /** A round that leaves every table as it was leaves every router
      unflagged, so the state it reaches is a fixed point of the round. */
  lemma UnchangedIsFixed(net: Net, adj: Adjacency)
    requires net.flags.Keys == net.tables.Keys
    requires RoundOf(ExistingColumn, net, adj).tables == net.tables
    ensures RoundOf(ExistingColumn, RoundOf(ExistingColumn, net, adj), adj) == RoundOf(ExistingColumn, net, adj)
  {
    var next := RoundOf(ExistingColumn, net, adj);
    Almost1.RoundFlagsAreChanges(ExistingColumn, net, adj);
    RoundQuiescent(ExistingColumn, next, adj);
  }

  /** One iteration of the loop: a round, the comparison with the copy and,
      unless the tables are unchanged, a fresh copy, the counter advanced and
      the test for flags. */
  method RoundAndTest(cur: Net, adj: Adjacency, prev: map<Node, Table>, t: nat)
    returns (next: Net, prev': map<Node, Table>, t': nat, stop: Stop)
    requires Shaped(cur) && prev.Keys == cur.tables.Keys
    ensures next == RoundOf(ExistingColumn, cur, adj) && Shaped(next) && prev'.Keys == next.tables.Keys
    ensures stop == Unchanged <==> next.tables == prev
    ensures stop == Quiet <==> next.tables != prev && !AnyFlag(next.flags)
    ensures stop != Unchanged ==> prev' == next.tables
    ensures t' == if stop == Unchanged then t else t + 1
  {
    next := Round(cur, adj);
    var same := SameTables(next.tables, prev);
    MapsEqualIff(next.tables, prev);
    prev', t', stop := prev, t, Unchanged;
    if !same {
      prev' := Almost1.CopyTables(next.tables);
      t' := t + 1;
      var quiet := NoneFlagged(next.flags);
      stop := if quiet then Quiet else OutOfFuel;
    }
  }

  /** Maps over the same keys are equal exactly when they agree at every key. */
  lemma MapsEqualIff(a: map<Node, Table>, b: map<Node, Table>)
    requires a.Keys == b.Keys
    ensures (a == b) == forall n :: n in a ==> a[n] == b[n]
  {
    if forall n :: n in a ==> a[n] == b[n] {
      MapsEqual(a, b);
    }
  }

  /** The convergence loop of both files, for at most `fuel` rounds, from
      `net` with the stored copy `prev` and the round counter `t`: each
      round is followed by the comparison with the copy (stop when nothing
      differs), a fresh copy, the counter advanced, and the test for flags
      (stop when none is raised). A run that stops has run at least one
      round; it stops on an unchanged table exactly when the last round
      reproduced the copy it was compared with, and on quiet flags only when
      the last round changed some table and left no router flagged. */
  method RunRounds(net: Net, adj: Adjacency, prev: map<Node, Table>, t: nat, fuel: nat)
    returns (final: Net, rounds: nat, t': nat, stop: Stop)
    requires Shaped(net) && prev.Keys == net.tables.Keys
    ensures Shaped(final) && rounds <= fuel && final == Rounds(ExistingColumn, net, adj, rounds)
    ensures stop == OutOfFuel ==> rounds == fuel
    ensures stop != OutOfFuel ==> rounds >= 1
    ensures stop == Unchanged ==> final.tables == ComparedWith(net, adj, prev, rounds)
    ensures stop == Quiet ==> final.tables != ComparedWith(net, adj, prev, rounds) && !AnyFlag(final.flags)
    ensures t' == t + rounds - (if stop == Unchanged then 1 else 0)
  {
    final, rounds, t', stop := net, 0, t, OutOfFuel;
    var p := prev;
    while stop == OutOfFuel && rounds < fuel
      invariant Shaped(final) && rounds <= fuel && final == Rounds(ExistingColumn, net, adj, rounds)
      invariant p.Keys == final.tables.Keys
      invariant stop == OutOfFuel ==> p == if rounds == 0 then prev else final.tables
      invariant stop != OutOfFuel ==> rounds >= 1
      invariant stop == Unchanged ==> final.tables == ComparedWith(net, adj, prev, rounds)
      invariant stop == Quiet ==> final.tables != ComparedWith(net, adj, prev, rounds) && !AnyFlag(final.flags)
      invariant t' == t + rounds - (if stop == Unchanged then 1 else 0)
      decreases fuel - rounds
    {
      ghost var before := final;
      final, p, t', stop := RoundAndTest(final, adj, p, t');
      rounds := rounds + 1;
      assert ComparedWith(net, adj, prev, rounds) == if rounds == 1 then prev else before.tables;
    }
  }

  /** A run that stops on unchanged tables, when its first round was compared
      with the tables it started from or it ran more than one round, or that
      stops with no router flagged, ends in a fixed point of the round: one
      more round would change nothing. */
  lemma {:induction false} StoppedIsFixed(net: Net, adj: Adjacency, prev: map<Node, Table>, rounds: nat, stop: Stop)
    requires Shaped(net)
    requires stop != OutOfFuel && rounds >= 1
    requires stop == Unchanged ==>
      Rounds(ExistingColumn, net, adj, rounds).tables == ComparedWith(net, adj, prev, rounds) && (rounds > 1 || prev == net.tables)
    requires stop == Quiet ==> !AnyFlag(Rounds(ExistingColumn, net, adj, rounds).flags)
    ensures var final := Rounds(ExistingColumn, net, adj, rounds);
      RoundOf(ExistingColumn, final, adj) == final
  {
    if stop == Unchanged {
      StoppedUnchanged(net, adj, prev, rounds);
    } else {
      StoppedQuiet(net, adj, rounds);
    }
  }

  /** The `Unchanged` half of `StoppedIsFixed`. */
  lemma StoppedUnchanged(net: Net, adj: Adjacency, prev: map<Node, Table>, rounds: nat)
    requires Shaped(net) && rounds >= 1 && (rounds > 1 || prev == net.tables)
    requires Rounds(ExistingColumn, net, adj, rounds).tables == ComparedWith(net, adj, prev, rounds)
    ensures RoundOf(ExistingColumn, Rounds(ExistingColumn, net, adj, rounds), adj) == Rounds(ExistingColumn, net, adj, rounds)
  {
    var before := Rounds(ExistingColumn, net, adj, rounds - 1);
    RoundsShaped(net, adj, rounds - 1);
    ComparedBefore(net, adj, prev, rounds);
    LastRoundFixed(before, Rounds(ExistingColumn, net, adj, rounds), adj);
  }

  /** The `Quiet` half of `StoppedIsFixed`. */
  lemma StoppedQuiet(net: Net, adj: Adjacency, rounds: nat)
    requires Shaped(net) && rounds >= 1
    requires !AnyFlag(Rounds(ExistingColumn, net, adj, rounds).flags)
    ensures RoundOf(ExistingColumn, Rounds(ExistingColumn, net, adj, rounds), adj) == Rounds(ExistingColumn, net, adj, rounds)
  {
    RoundsShaped(net, adj, rounds);
    RoundQuiescent(ExistingColumn, Rounds(ExistingColumn, net, adj, rounds), adj);
  }

  /** The tables compared after round `k` are the ones the round started
      from, when the first round is compared with the starting tables. */
  lemma ComparedBefore(net: Net, adj: Adjacency, prev: map<Node, Table>, k: nat)
    requires k >= 1
    ensures k > 1 || prev == net.tables ==> ComparedWith(net, adj, prev, k) == Rounds(ExistingColumn, net, adj, k - 1).tables
    ensures Rounds(ExistingColumn, net, adj, k) == RoundOf(ExistingColumn, Rounds(ExistingColumn, net, adj, k - 1), adj)
  {
  }

  /** A round from `before` to `after` that leaves every table as it was
      reaches a fixed point. */
  lemma LastRoundFixed(before: Net, after: Net, adj: Adjacency)
    requires Shaped(before) && after == RoundOf(ExistingColumn, before, adj)
    requires after.tables == before.tables
    ensures RoundOf(ExistingColumn, after, adj) == after
  {
    UnchangedIsFixed(before, adj);
  }

  /** Any number of rounds keeps every table square over the other routers. */
  lemma {:induction false} RoundsShaped(net: Net, adj: Adjacency, k: nat)
    requires Shaped(net)
    ensures Shaped(Rounds(ExistingColumn, net, adj, k))
  {
    if k > 0 {
      RoundsShaped(net, adj, k - 1);
      RoundKeepsShape(ExistingColumn, Rounds(ExistingColumn, net, adj, k - 1), adj);
    }
  }

  /** The first convergence phase of both files: the copy taken is of the
      tables the loop starts from and the counter starts at 1, so a run that
      stops ends in a fixed point of the round. */
  method Converge(net: Net, adj: Adjacency, fuel: nat) returns (final: Net, rounds: nat, t: nat, stop: Stop)
    requires Shaped(net)
    ensures Shaped(final) && rounds <= fuel && final == Rounds(ExistingColumn, net, adj, rounds)
    ensures stop == OutOfFuel ==> rounds == fuel
    ensures stop != OutOfFuel ==> rounds >= 1 && RoundOf(ExistingColumn, final, adj) == final
    ensures t == 1 + rounds - (if stop == Unchanged then 1 else 0)
  {
    var prev := Almost1.CopyTables(net.tables);
    final, rounds, t, stop := RunRounds(net, adj, prev, 1, fuel);
    if stop != OutOfFuel {
      StoppedIsFixed(net, adj, prev, rounds, stop);
    }
  }

  // ---------------------------------------------------------------------------
  // Start-up

  /** The graph after the node section: an empty neighbour map per name. */
  ghost function Vertices(names: set<Node>): Adjacency {
    map n | n in names :: map[]
  }

  /** Every neighbour of a router is another router: `update_self` /
      `refresh_costs` index the router's own row for each neighbour, which
      fails for an unknown name or for the router itself. */
  ghost predicate LinksToRouters(adj: Adjacency, routers: set<Node>) {
    forall n, v :: n in routers && v in Links(adj, n) ==> v in routers && v != n
  }

  /** In an all-infinite table, making a column infinite changes nothing: the
      resynchronisation of a fresh table depends only on the links, whichever
      non-neighbours it purges. */
  lemma ResyncFresh(keys: set<Node>, links: map<Node, nat>, purge: set<Node>)
    requires purge !! links.Keys
    ensures Resync(Almost1.InfTable(keys), links, purge) == Resync(Almost1.InfTable(keys), links, {})
  {
    var t := Almost1.InfTable(keys);
    TablesEqual(Resync(t, links, purge), Resync(t, links, {}));
  }

  /** The node section: an empty neighbour map per name, in input order. */
  method AddVertices(g: Graph, names: seq<Node>)
    requires g.adj == map[]
    modifies g
    ensures g.adj == Vertices(Elems(names))
  {
    var i := 0;
    while i < |names|
      invariant 0 <= i <= |names| && g.adj == Vertices(Elems(names[..i]))
    {
      assert Elems(names[..i + 1]) == Elems(names[..i]) + {names[i]};
      MapsEqual(g.adj[names[i] := map[]], Vertices(Elems(names[..i + 1])));
      g.AddVertex(names[i]);
      i := i + 1;
    }
    assert names[..|names|] == names;
  }

  /** The order of router `n`'s rows and vias: sorted in DistanceVector.py,
      in input order in test.py. */
  ghost predicate TableOrder(names: seq<Node>, n: Node, sorted: bool, order: seq<Node>) {
    && Elems(order) == Elems(names) - {n} && Distinct(order)
    && (sorted ==> SortedStrict(order))
    && (!sorted ==> order == Almost1.Others(names, n))
  }

  /** `initialize_distance_table` (sorted) / `setup_cost_table` (input order):
      the order of the other routers and the all-infinite table over them. */
  method FreshTable(names: seq<Node>, n: Node, sorted: bool) returns (order: seq<Node>, t: Table)
    requires Distinct(names)
    ensures TableOrder(names, n, sorted, order) && t == Almost1.InfTable(Elems(names) - {n})
  {
    if sorted {
      order := SortNames(Elems(names) - {n});
      SortedIsDistinct(order);
    } else {
      order := Almost1.Others(names, n);
    }
    t := Almost1.BuildInfTable(order);
    Almost1.AllInfIsInfTable(t, Elems(order));
  }

  /** Start-up: the node section, the initial edges, and a router per name in
      input order, each with a fresh table resynchronised with the graph
      against the routers created before it, and flagged. Whatever routers
      came before, the result is the start-up state of almost1.py: a fresh
      table only ever gains its neighbours' diagonals. The initial section is
      taken to carry non-negative weights. */
  method Startup(names: seq<Node>, cs: seq<EdgeChange>, sorted: bool)
    returns (g: Graph, net: Net, orders: map<Node, seq<Node>>)
    requires Distinct(names) && forall i :: 0 <= i < |cs| ==> cs[i].weight >= 0
    requires LinksToRouters(ApplyChanges(Vertices(Elems(names)), cs, false), Elems(names))
    ensures fresh(g) && g.adj == ApplyChanges(Vertices(Elems(names)), cs, false)
    ensures net == Almost1.Started(Elems(names), g.adj)
    ensures orders.Keys == Elems(names) && forall n :: n in orders ==> TableOrder(names, n, sorted, orders[n])
  {
    g := new Graph();
    AddVertices(g, names);
    g.ApplyEdgeChanges(cs, false);
    var tables;
    tables, orders := StartRouters(names, g.adj, sorted);
    net := Net(tables, map n | n in Elems(names) :: true);
  }

  /** The router loop of start-up, in input order. */
  method StartRouters(names: seq<Node>, adj: Adjacency, sorted: bool) returns (tables: map<Node, Table>, orders: map<Node, seq<Node>>)
    requires Distinct(names) && LinksToRouters(adj, Elems(names))
    ensures tables == Almost1.Started(Elems(names), adj).tables
    ensures orders.Keys == Elems(names) && forall n :: n in orders ==> TableOrder(names, n, sorted, orders[n])
  {
    var all := Elems(names);
    tables, orders := map[], map[];
    var i := 0;
    while i < |names|
      invariant 0 <= i <= |names|
      invariant tables.Keys == Elems(names[..i]) && orders.Keys == Elems(names[..i])
      invariant forall n :: n in tables ==> tables[n] == Almost1.StartedTable(all, adj, n)
      invariant forall n :: n in orders ==> TableOrder(names, n, sorted, orders[n])
    {
      var t, order := StartRouter(names, adj, sorted, i);
      assert Elems(names[..i + 1]) == Elems(names[..i]) + {names[i]};
      tables, orders := tables[names[i] := t], orders[names[i] := order];
      i := i + 1;
    }
    assert names[..|names|] == names;
    MapsEqual(tables, Almost1.Started(all, adj).tables);
  }

  /** Router `names[i]` at start-up: its fresh table, resynchronised against
      the routers created before it. */
  method StartRouter(names: seq<Node>, adj: Adjacency, sorted: bool, i: nat) returns (t: Table, order: seq<Node>)
    requires Distinct(names) && i < |names| && LinksToRouters(adj, Elems(names))
    ensures t == Almost1.StartedTable(Elems(names), adj, names[i]) && TableOrder(names, names[i], sorted, order)
  {
    var n := names[i];
    var all := Elems(names);
    var t0;
    order, t0 := FreshTable(names, n, sorted);
    var links := Links(adj, n);
    var f;
    t, f := Almost1.ResyncTable(n, t0, true, links, Elems(names[..i]));
    ResyncFresh(all - {n}, links, Elems(names[..i]) - {n} - links.Keys);
    ResyncFresh(all - {n}, links, all - {n} - links.Keys);
  }

  // ---------------------------------------------------------------------------
  // After the UPDATE section

  /** The state after `process_after_update` / `update_after_topology_change`
      on every router: each table is almost1.py's post-update table
      (resynchronised with the new graph, then seeded from the neighbours'
      routing tables), and every router is flagged, since the
      resynchronisation raises the flag unconditionally. */
  ghost function Reseeded(net: Net, adj: Adjacency, routes: map<Node, map<Node, Route>>): Net {
    Net(Almost1.PostUpdated(net, adj, routes).tables, map n | n in net.tables :: true)
  }

  /** Router `self`'s table after the pass, from its table `t`, its links,
      the routing tables `routes` and the router names `routers`: the
      resynchronisation against every other router, then the seeding from
      the neighbours' routing tables. */
  ghost function ReseededTable(t: Table, self: Node, links: map<Node, nat>, routes: map<Node, map<Node, Route>>,
                               routers: set<Node>): Table
  {
    Seeded(Resync(t, links, routers - {self} - links.Keys), self, Almost1.Seeds(routers, self, links, routes))
  }

  /** `process_after_update` / `update_after_topology_change` on one table:
      `update_self` (which raises the flag unconditionally), the seeding, and
      the test against the copy taken first. Python indexes the router's own
      row for each neighbour and for each destination a neighbour's routing
      table names, so those rows must exist. */
  method Reseed(self: Node, t: Table, links: map<Node, nat>, routes: map<Node, map<Node, Route>>, routers: set<Node>)
    returns (t': Table, flag: bool)
    requires Square(t, routers - {self}) && links.Keys <= routers - {self}
    requires forall v :: v in Almost1.Seeds(routers, self, links, routes) ==>
      v !in routes[v] && forall d :: d in routes[v] && d != self ==> d in t
    ensures t' == ReseededTable(t, self, links, routes, routers) && Square(t', routers - {self})
    ensures flag
  {
    var original := t;
    var t1, f1 := Almost1.ResyncTable(self, t, true, links, routers);
    t', flag := Almost1.SeedTable(self, t1, f1, links, routes, routers);
    if t' != original {
      flag := true;
    }
  }

  /** Router `n`'s part of the pass: its inbox is discarded (the model keeps
      no inbox between rounds) and its table reseeded. */
  method ProcessAfterUpdate(net: Net, adj: Adjacency, routes: map<Node, map<Node, Route>>, n: Node)
    returns (t: Table, flag: bool)
    requires Shaped(net) && Almost1.RoutesFit(net, routes) && n in net.tables
    requires LinksToRouters(adj, net.tables.Keys)
    ensures t == Reseeded(net, adj, routes).tables[n] && flag == Reseeded(net, adj, routes).flags[n]
  {
    var links := Links(adj, n);
    Almost1.SeedsFit(net, routes, n, links, net.tables[n]);
    t, flag := Reseed(n, net.tables[n], links, routes, net.tables.Keys);
    Almost1.PostUpdatedAt(net, adj, routes, n);
  }

  /** The pass over every router, in list order; each router reads only its
      own table and the routing tables fixed before the pass. */
  method ProcessAllAfterUpdate(net: Net, adj: Adjacency, routes: map<Node, map<Node, Route>>) returns (net': Net)
    requires Shaped(net) && Almost1.RoutesFit(net, routes) && LinksToRouters(adj, net.tables.Keys)
    ensures net' == Reseeded(net, adj, routes) && Shaped(net') && net'.tables.Keys == net.tables.Keys
  {
    ghost var post := Reseeded(net, adj, routes);
    ReplacedEnds(net.tables, post.tables, net.tables);
    ReplacedEnds(net.flags, post.flags, net.flags);
    var tables, flags := net.tables, net.flags;
    var pending := net.tables.Keys;
    while pending != {}
      invariant ReplacedExcept(net.tables, post.tables, tables, pending)
      invariant ReplacedExcept(net.flags, post.flags, flags, pending)
      decreases pending
    {
      var n :| n in pending;
      var t, f := ProcessAfterUpdate(net, adj, routes, n);
      ReplacedStep(net.tables, post.tables, tables, pending, n);
      ReplacedStep(net.flags, post.flags, flags, pending, n);
      tables, flags := tables[n := t], flags[n := f];
      pending := pending - {n};
    }
    ReplacedEnds(net.tables, post.tables, tables);
    ReplacedEnds(net.flags, post.flags, flags);
    net' := Net(tables, flags);
    Almost1.PostUpdatedShaped(net, adj, routes);
  }

  /** The UPDATE section and the pass after it: the edge changes applied in
      order (weight -1 pops each direction that is present, any other weight
      sets both), a copy of every table, the pass, and the test whether any
      table differs from its copy. */
  method UpdateSection(g: Graph, net: Net, routes: map<Node, map<Node, Route>>, cs: seq<EdgeChange>)
    returns (net': Net, anyChanged: bool)
    requires Shaped(net) && Almost1.RoutesFit(net, routes)
    requires forall i :: 0 <= i < |cs| ==> ValidChange(cs[i])
    requires LinksToRouters(ApplyChanges(g.adj, cs, false), net.tables.Keys)
    modifies g
    ensures g.adj == ApplyChanges(old(g.adj), cs, false)
    ensures net' == Reseeded(net, g.adj, routes) && Shaped(net') && net'.tables.Keys == net.tables.Keys
    ensures anyChanged == exists n :: n in net.tables && net'.tables[n] != net.tables[n]
  {
    g.ApplyEdgeChanges(cs, false);
    var prev := Almost1.CopyTables(net.tables);
    net' := ProcessAllAfterUpdate(net, g.adj, routes);
    var same := SameTables(net'.tables, prev);
    anyChanged := !same;
  }

  /** Every router's routing table, as printing derives it after a
      convergence phase: router `n` scans its vias in `orders[n]`, the order
      of its table. (`create_routing_table` writes into the router's previous
      routing table, whose entries are for the same destinations, so every
      entry is replaced.) */
  method AllRoutes(net: Net, orders: map<Node, seq<Node>>) returns (routes: map<Node, map<Node, Route>>)
    requires Shaped(net) && orders.Keys == net.tables.Keys
    requires forall n :: n in orders ==> Distinct(orders[n]) && Elems(orders[n]) == net.tables.Keys - {n}
    ensures Almost1.RoutesFit(net, routes)
    ensures forall n :: n in net.tables ==> Almost1.RoutingTableOf(net.tables[n], orders[n], routes[n])
  {
    routes := map[];
    var pending := net.tables.Keys;
    while pending != {}
      invariant pending <= net.tables.Keys
      invariant forall n :: n in routes <==> n in net.tables && n !in pending
      invariant forall n :: n in routes ==> Almost1.RoutingTableOf(net.tables[n], orders[n], routes[n])
      decreases pending
    {
      var n :| n in pending;
      assert Square(net.tables[n], net.tables.Keys - {n});
      var rs := Almost1.RoutesInOrder(net.tables[n], orders[n]);
      routes := routes[n := rs];
      pending := pending - {n};
    }
  }

  /** The second convergence phase, run when the pass changed some table:
      from the state after the pass, with the counter already advanced, and
      with the copy of the tables taken before the UPDATE section
      (`before`, as DistanceVector.py keeps it) or a fresh copy of the
      tables after the pass (`refresh`, as test.py takes it). With the fresh
      copy a phase that stops ends in a fixed point of the round; with the
      old one, so does a phase that stops for lack of flags or after more
      than one round, but a stop on unchanged tables at the first round
      means only that the round reproduced the tables from before the UPDATE
      section. */
  method SecondPhase(before: map<Node, Table>, seeded: Net, adj: Adjacency, t: nat, fuel: nat, refresh: bool)
    returns (final: Net, rounds: nat, t': nat, stop: Stop)
    requires Shaped(seeded) && before.Keys == seeded.tables.Keys
    ensures Shaped(final) && rounds <= fuel && final == Rounds(ExistingColumn, seeded, adj, rounds)
    ensures stop == OutOfFuel ==> rounds == fuel
    ensures stop != OutOfFuel ==> rounds >= 1
    ensures t' == t + rounds - (if stop == Unchanged then 1 else 0)
    ensures stop != OutOfFuel && (refresh || stop == Quiet || rounds > 1) ==> RoundOf(ExistingColumn, final, adj) == final
    ensures !refresh && stop == Unchanged ==>
      final.tables == if rounds == 1 then before else Rounds(ExistingColumn, seeded, adj, rounds - 1).tables
  {
    var prev := before;
    if refresh {
      prev := Almost1.CopyTables(seeded.tables);
    }
    final, rounds, t', stop := RunRounds(seeded, adj, prev, t, fuel);
    if stop != OutOfFuel && (refresh || stop == Quiet || rounds > 1) {
      StoppedIsFixed(seeded, adj, prev, rounds, stop);
    }
  }
}

/** The router class of DistanceVector.py (`Router`) and test.py (`Node`):
    its table, inbox, routing table and flag are updated in place by the
    operations of `Queued`, and sending appends to other routers' inboxes. */
module QueuedRouter {
  import opened Common
  import opened Topology
  import opened Relaxation
  import Almost1
  import opened Queued

  class Router {
    const name: Node
    /** The other routers in the order the table was built: the order in
        which every later loop over a row sees its vias. */
    var order: seq<Node>
    var table: Table
    var inbox: seq<Message>
    var routingTable: map<Node, Route>
    var flag: bool

    /** The table has a row and a via for exactly the routers in `order`. */
    ghost predicate Valid()
      reads this
    {
      Square(table, Elems(order)) && Distinct(order) && name !in Elems(order)
    }

    /** `__init__`: an empty table, inbox and routing table, not flagged. */
    constructor (name: Node)
      ensures this.name == name && order == [] && table == map[] && inbox == [] && routingTable == map[] && !flag
    {
      this.name := name;
      order := [];
      table := map[];
      inbox := [];
      routingTable := map[];
      flag := false;
    }

    /** `initialize_distance_table` (DistanceVector.py): the other names,
        sorted, and an all-infinite table over them. */
    method InitializeDistanceTable(nodes: seq<Node>)
      requires table == map[] && Distinct(nodes)
      modifies this
      ensures Valid() && SortedStrict(order) && Elems(order) == Elems(nodes) - {name}
      ensures table == Almost1.InfTable(Elems(nodes) - {name})
      ensures inbox == old(inbox) && routingTable == old(routingTable) && flag == old(flag)
    {
      order, table := FreshTable(nodes, name, true);
    }

    /** `setup_cost_table` (test.py): the other names in input order, and an
        all-infinite table over them. */
    method SetupCostTable(allNodes: seq<Node>)
      requires table == map[] && Distinct(allNodes)
      modifies this
      ensures Valid() && order == Almost1.Others(allNodes, name)
      ensures table == Almost1.InfTable(Elems(allNodes) - {name})
      ensures inbox == old(inbox) && routingTable == old(routingTable) && flag == old(flag)
    {
      order, table := FreshTable(allNodes, name, false);
    }

    /** `update_self` / `refresh_costs` against the routers named in
        `routers`: the neighbours' diagonals take the link weights, the
        columns of the listed routers that are not neighbours become infinite,
        and the flag is raised unconditionally. Python indexes the row of
        every neighbour. */
    method UpdateSelf(g: Graph, routers: seq<Node>)
      requires Valid() && Elems(routers) - {name} <= Elems(order)
      requires g.Neighbors(name).Keys <= Elems(order)
      modifies this
      ensures Valid() && order == old(order) && inbox == old(inbox) && routingTable == old(routingTable)
      ensures table == Resync(old(table), g.Neighbors(name), Elems(routers) - {name} - g.Neighbors(name).Keys)
      ensures flag
    {
      var t, f := Almost1.ResyncTable(name, table, true, g.Neighbors(name), Elems(routers));
      table, flag := t, f;
    }

    /** `send_updates` / `propagate_updates`: when flagged, a copy of this
        router's table goes to the end of the inbox of every listed router
        that is a neighbour, in list order; the flag is cleared either way.
        The list holds each router once. */
    method SendUpdates(neighbors: map<Node, nat>, routers: seq<Router>)
      requires forall i, j :: 0 <= i < j < |routers| ==> routers[i] != routers[j]
      modifies this, set r | r in routers
      ensures !flag && table == old(table) && order == old(order) && routingTable == old(routingTable)
      ensures this !in routers ==> inbox == old(inbox)
      ensures forall i :: 0 <= i < |routers| ==>
        routers[i].inbox == old(routers[i].inbox) + Sent(old(flag), routers[i].name, neighbors, name, old(table))
      ensures forall i :: 0 <= i < |routers| ==>
        && routers[i].table == old(routers[i].table) && routers[i].routingTable == old(routers[i].routingTable)
        && (routers[i] != this ==> routers[i].flag == old(routers[i].flag))
    {
      if flag {
        var i := 0;
        while i < |routers|
          invariant 0 <= i <= |routers| && flag && table == old(table) && order == old(order)
          invariant routingTable == old(routingTable)
          invariant this !in routers ==> inbox == old(inbox)
          invariant forall j :: 0 <= j < i ==>
            routers[j].inbox == old(routers[j].inbox) + Sent(true, routers[j].name, neighbors, name, old(table))
          invariant forall j :: i <= j < |routers| ==> routers[j].inbox == old(routers[j].inbox)
          invariant forall j :: 0 <= j < |routers| ==>
            && routers[j].table == old(routers[j].table) && routers[j].routingTable == old(routers[j].routingTable)
            && routers[j].flag == old(routers[j].flag)
        {
          if routers[i].name in neighbors {
            var copy := CopyTable(table);
            routers[i].inbox := routers[i].inbox + [Message(name, copy)];
          }
          i := i + 1;
        }
      }
      flag := false;
    }

    /** `process_received_tables` / `process_updates`: the inbox handled in
        order, then emptied. Python reads the received row of every
        destination whose row has the sender as a via. */
    method ProcessReceivedTables()
      requires Valid() && forall i :: 0 <= i < |inbox| ==> Readable(Elems(order), inbox[i])
      modifies this
      ensures Valid() && order == old(order) && routingTable == old(routingTable)
      ensures (table, flag) == ProcessedInOrder(old(table), old(flag), name, old(inbox))
      ensures inbox == []
    {
      table, flag := ProcessInbox(name, table, flag, inbox, Elems(order));
      inbox := [];
    }

    /** `find_min_cost` / `min_cost` on this router's own row for `dest`:
        the first via in table order with a strictly smaller cost, starting
        from infinity. */
    method FindMinCost(dest: Node) returns (r: Route)
      requires Valid() && dest in table
      ensures Almost1.EarliestViaMin(table[dest], order, r)
    {
      Almost1.FirstMinIsEarliest(table[dest], order);
      r := ScanMin(table[dest], order);
    }

    /** `create_routing_table` / `build_routing_info`: an entry per
        destination of the table, written into the previous routing table
        (entries for other destinations stay); the distance table is only
        read. */
    method CreateRoutingTable()
      requires Valid()
      modifies this
      ensures Valid() && table == old(table) && order == old(order) && inbox == old(inbox) && flag == old(flag)
      ensures routingTable.Keys == old(routingTable).Keys + table.Keys
      ensures forall d :: d in table ==> Almost1.EarliestViaMin(table[d], order, routingTable[d])
      ensures forall d :: d in old(routingTable) && d !in table ==> routingTable[d] == old(routingTable)[d]
    {
      var routes := Almost1.RoutesInOrder(table, order);
      routingTable := routingTable + routes;
    }

    /** `process_after_update` / `update_after_topology_change` with the
        routers' routing tables `routes` (keyed by router name) and the
        router names `routers`: the inbox is discarded, the table is
        resynchronised against every listed router and seeded from the
        neighbours' routing tables, and the router ends flagged. */
    method ProcessAfterUpdate(g: Graph, routes: map<Node, map<Node, Route>>, routers: set<Node>)
      requires Valid() && routers - {name} == Elems(order) && g.Neighbors(name).Keys <= Elems(order)
      requires forall v :: v in Almost1.Seeds(routers, name, g.Neighbors(name), routes) ==>
        v !in routes[v] && forall d :: d in routes[v] && d != name ==> d in table
      modifies this
      ensures Valid() && order == old(order) && routingTable == old(routingTable)
      ensures table == ReseededTable(old(table), name, g.Neighbors(name), routes, routers)
      ensures inbox == [] && flag
    {
      inbox := [];
      var t, f := Reseed(name, table, g.Neighbors(name), routes, routers);
      table, flag := t, f;
    }
  }

  /** What `send_updates` appends to the inbox of router `receiver`: a copy
      of the sender's table when the sender is flagged and `receiver` is its
      neighbour, nothing otherwise. */
  function Sent(flagged: bool, receiver: Node, neighbors: map<Node, nat>, sender: Node, t: Table): seq<Message> {
    if flagged && receiver in neighbors then [Message(sender, t)] else []
  }
}
