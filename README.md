# Distance-vector routing simulator, modelled in Dafny

The repository holds four versions of one program. Each is a synchronous,
round-based distance-vector (Bellman-Ford) routing simulator:
`almost4.py`, `almost1.py`, `DistanceVector.py` and `test.py`.

All four work the same way:
- Routers are named by strings.
- An undirected weighted graph says which routers are linked and at what cost.
- Every router keeps a distance table: one row per other router (the destination) and one column per other router (the via). The diagonal cell `[d][d]` holds the direct link cost.
- In each round:
  - every router whose `changed` flag is up sends a copy of its table to its neighbours and lowers its flag;
  - every receiver relaxes the sender's column: `cost[d][s] := cost[s][s] + min(sender's row for d)`;
  - a receiver raises its flag when a cell changes;
  - the loop stops on a convergence test.
- After the rounds, each router derives a routing table: for every destination, the via of least cost, with a fixed tie-break.
- An UPDATE section then changes edges, the tables are brought back in line with the new graph, and the rounds run again.

The versions differ in their rules, and each rule is modelled separately:
- `almost4.py`:
  - relaxes only destinations the sender knows;
  - re-initialises every table from scratch after an update;
  - breaks routing ties by the smallest via name.
- `almost1.py`:
  - treats a destination the sender does not know as infinitely far;
  - raises flags only on an actual change;
  - stops when every table equals its copy from the start of the round;
  - after an update, resynchronises each table with the graph and seeds it from the neighbours' routing tables.
- `DistanceVector.py` and `test.py` (the same engine under two sets of names):
  - queue copies in per-router inboxes;
  - relax only cells whose via column exists;
  - stop on unchanged tables or when no router is flagged;
  - seed from routing tables after an update.

Infinity (`math.inf`) is a cost constructor with saturating addition:
`Cost = Fin(nat) | Inf`.

The project has ten modules:
- `Common`: costs, tables, row minima and the scans that find them, a name sort.
- `Topology`: the adjacency map and the `Graph` class shared by all versions.
- `Relaxation`: the table updates as functions (relaxation under each version's `Rule`, resynchronisation, seeding).
- `Exchange`: a round as a value (`RoundOf`), and the proof that delivering the updates one by one reaches it.
- `Almost4` and `Almost1`: one module per version.
- `Queued` (with the class module `QueuedRouter`): `DistanceVector.py` and `test.py` together.
- `Consistency`: what a run of `DistanceVector.py` and `test.py` keeps true of every table from start-up on, and what follows for the pass after the UPDATE section.
- `Run`: a whole run of `DistanceVector.py` or `test.py`, from the edge lists to the end of the second phase.
- `Walks`: every estimate is the weight of a real walk in the graph, in every version, from start-up or from a re-initialisation.

Each version's round loop is a method proved equal to `Rounds(rule, ...)` for its
own rule, and a loop that stops on its own is proved to leave a fixed point of
the round. One stop rests on the history of the run: the second loop of
`DistanceVector.py` compares its first round with the tables from before the
UPDATE section. `Run.Simulate` proves that this stop, too, is a fixed point.
The reason (`Consistency.PassUndone`) is that the first phase leaves every
table consistent with the links and with the neighbours' tables. A pass that
changes a table therefore changes one of its direct-link cells, and no round
writes those. The same invariant shows that an UPDATE section leaving the
graph as it was changes no table (`Consistency.NoOpPass`).

From start-up, and after `almost4.py` re-initialises, no estimate is ever
below the true cost (`Walks`): every finite cell `[d][v]` of router `n` is the
weight of a walk in the graph from `n` over its link to `v` to `d`.

`almost4.py` raises `updates_made` for every UPDATE line, even one that sets a
link to the weight it already has (almost4.py:239). After any non-empty
UPDATE section it therefore re-initialises and runs the rounds again.
`Almost4.UpdateSection` states exactly this (`made == (cs != [])`).

## Model

| member | source | states |
|---|---|---|
| Common.MinOf | almost4.py:69 | the minimum of a row: nothing in the row is below it, and a finite minimum is attained; an empty row has minimum infinity |
| Common.MinUnique | almost4.py:69 | a row has only one minimum |
| Common.MinExists | almost1.py:78 | every row, empty or not, has a minimum |
| Common.MinAt | almost4.py:69 | a cell no other cell is below is the row's minimum |
| Common.MinValue | almost4.py:69 | `min(row.values())` on a non-empty row returns the row's minimum |
| Common.FirstMin | DistanceVector.py:66-71 | a scan from infinity with strict `<` returns no hop exactly when its cost is infinite; a hop it returns is in the scan order and holds the returned cost; no scanned cell is below the result |
| Common.ScanMin | test.py:65-72 | the scan loop returns exactly the `FirstMin` of the row in the given order |
| Common.FirstMinIsMin | almost1.py:105-111 | when the scan order covers the row, the scan's cost is the row's minimum |
| Common.FirstMinIsFirst | almost1.py:108-111 | every via scanned before the chosen hop costs strictly more than the chosen cost |
| Common.LexLessIrreflexive | almost4.py:114 | the string order used by `sorted` is irreflexive |
| Common.LexLessTransitive | almost4.py:114 | the string order used by `sorted` is transitive |
| Common.LexLessTotal | almost4.py:114 | two different names are always ordered one way or the other |
| Common.LexLessAsymmetric | almost4.py:114 | the string order used by `sorted` is asymmetric |
| Common.SortedIsDistinct | almost4.py:245 | a strictly sorted name list holds no name twice |
| Common.Insert | almost4.py:245 | inserting into a strictly sorted list keeps it strictly sorted and adds exactly the new name |
| Common.SortNames | DistanceVector.py:17 | sorting a set of names yields a strictly increasing list of exactly those names |
| Common.SortedScanPicksSmallest | almost4.py:118-123 | a strict-`<` scan in sorted via order picks, among the vias of least cost, the smallest name |
| Common.CopyTable | almost4.py:77-83 | the nested copy loop returns a table equal to the original |
| Common.CopyRow | almost1.py:89-91 | the inner copy loop returns a row equal to the original |
| Common.CellWrite | almost1.py:53-56 | after writing one cell, the table differs from its starting value exactly when it did before or the write changed the cell |
| Common.TablesEqual | DistanceVector.py:151 | two tables with the same rows, vias and cells are equal, as Python's `==` on nested dicts compares them |
| Topology.WithNode | almost4.py:12-15 | adding a vertex keeps every existing key and adds that one |
| Topology.WithEdge | almost4.py:10-17 | adding an edge adds both endpoints as vertices and keeps every other vertex |
| Topology.WithEdgeLinks | almost4.py:10-17 | `add_edge` links both directions with the same weight and leaves every other pair's link and weight unchanged |
| Topology.WithEdgeOther | almost1.py:12-19 | an edge addition leaves any other pair's link and weight as they were |
| Topology.WithEdgeKeepsSymmetry | almost1.py:12-19 | adding an edge keeps the adjacency symmetric |
| Topology.WithoutEdge | DistanceVector.py:106-108 | removing an edge keeps the vertex set |
| Topology.WithoutEdgeLinks | test.py:113-117 | removal unlinks both directions and leaves every other pair's link and weight unchanged |
| Topology.WithoutEdgeKeepsSymmetry | DistanceVector.py:106-108 | removing an edge keeps the adjacency symmetric |
| Topology.GuardedRemovalAgrees | almost4.py:18-25 | on a symmetric graph, the removal guarded by "both endpoints known" equals removing each direction where present |
| Topology.LinksSymmetric | almost1.py:28-30 | on a symmetric graph, `u` is a neighbour of `v` exactly when `v` is a neighbour of `u`, at the same weight |
| Topology.Links | almost4.py:26-28 | a router's neighbours with their link weights; none for a router the graph does not know |
| Topology.LinksAreLinks | almost1.py:28-30 | the neighbours of a router are exactly the routers it has a link to, at that link's weight |
| Topology.ApplyChangesNext | almost4.py:156-167 | applying one more input line extends the graph by that line's change |
| Topology.ApplyChangesKeepsSymmetry | almost4.py:215-237 | a whole UPDATE section of additions and removals keeps the adjacency symmetric |
| Topology.Graph.constructor | almost4.py:8-9 | a new graph has no vertices |
| Topology.Graph.AddVertex | DistanceVector.py:119 | a named router enters the graph with no neighbours |
| Topology.Graph.AddEdge | test.py:106-111 | the graph becomes `WithEdge` of the old graph |
| Topology.Graph.RemoveEdge | almost1.py:20-27 | the graph becomes the guarded removal of the old graph |
| Topology.Graph.RemoveEdgeEach | DistanceVector.py:106-108 | the graph becomes the per-direction removal of the old graph |
| Topology.Graph.ApplyEdgeChange | almost4.py:234-237 | weight -1 removes the edge, any other weight sets it |
| Topology.Graph.ApplyEdgeChanges | test.py:176-184 | the graph after the loop is the old graph with every change applied in input order |
| Topology.Graph.Neighbors | DistanceVector.py:110-111 | `get_neighbors` returns no neighbours for a router the graph does not know |
| Topology.Graph.NeighborsAreLinks | test.py:119-120 | the neighbours are exactly the linked routers, at their links' weights |
| Relaxation.Candidate | DistanceVector.py:49-56 | no version's relaxation writes a diagonal cell |
| Relaxation.RelaxOneFrame | almost4.py:63-71 | a relaxation changes only the sender's column, adds no row and no column other than the sender's, and never touches a diagonal cell |
| Relaxation.RelaxOneKeepsSquare | almost1.py:73-81 | when the sender's column exists wherever it is written, the table keeps its square shape |
| Relaxation.RelaxOneAt | almost1.py:77-81 | each row is rewritten at the sender's column with the candidate cost, or left alone |
| Relaxation.RelaxOneIdle | almost4.py:54-55 | when no destination has a candidate (for example, the sender is the router itself), the relaxation is the identity |
| Relaxation.RelaxedRow | test.py:52-62 | a row after all of a round's relaxations keeps its vias |
| Relaxation.RelaxAllShape | DistanceVector.py:46-59 | a whole inbox of relaxations keeps every row and every row's vias |
| Relaxation.CandidateStable | DistanceVector.py:49-58 | a relaxation from one sender depends only on the shape and the sender's diagonal, so one sender's delivery cannot alter another's |
| Relaxation.RelaxAllStep | DistanceVector.py:51-58 | relaxing one more sender on top of the others gives the same table as relaxing all of them at once, whatever the delivery order |
| Relaxation.RelaxAllKeepsDiagonal | test.py:55-60 | relaxations never change the diagonal cell of any sender |
| Relaxation.RelaxAllUnchanged | almost1.py:141-145 | if relaxing a larger inbox leaves the table unchanged, so does any part of it |
| Relaxation.RelaxAllKeepsChange | almost1.py:141-145 | if part of an inbox changes the table, the whole inbox does too |
| Relaxation.DeliveryFlag | almost4.py:197-200 | the table differs from its start after one more delivery exactly when it did before or that delivery changed it |
| Relaxation.RelaxAllEmpty | DistanceVector.py:46-59 | an empty inbox leaves the table unchanged |
| Relaxation.Resync | DistanceVector.py:29-37 | resynchronising keeps every row and every row's vias |
| Relaxation.ResyncEffect | almost1.py:46-65 | each neighbour's diagonal becomes its link weight, every cell of a non-neighbour router's column becomes infinite, and every other cell is unchanged |
| Relaxation.Seeded | almost1.py:234-248 | seeding keeps every row and every row's vias |
| Relaxation.SeededNone | DistanceVector.py:87-93 | with no neighbour's routing table, seeding does nothing |
| Relaxation.SeededEmpty | test.py:91-98 | a neighbour with an empty routing table seeds nothing |
| Relaxation.SeededDiag | almost1.py:240-246 | seeding never writes the diagonal of a neighbour that has no entry for itself |
| Exchange.RoundQuiescent | DistanceVector.py:165-166 | with no router flagged nothing is sent, so a round leaves the whole state unchanged |
| Exchange.RoundKeepsShape | almost1.py:131-145 | a round keeps every table square over the other routers |
| Exchange.RoundTouchesHeardColumns | test.py:155-159 | a cell changed by a round is off the diagonal, in the column of a router that was flagged at the round's start and has the receiver as a neighbour |
| Exchange.SnapshotUsable | DistanceVector.py:52-56 | in a square network every snapshot row is non-empty and every sender column exists, so the relaxation is defined |
| Exchange.RoundClosed | almost4.py:186-200 | once every update is delivered and each router heard exactly its advertisers, the state is `RoundOf` |
| Exchange.CollectUpdates | almost4.py:187-194 | the collection loop queues a copy of each flagged router's table for each neighbour (only for known routers when asked), each receiver hears from exactly its advertisers, and every flag ends lowered |
| Exchange.QueueCopies | almost4.py:190-193 | the per-neighbour loop queues a current snapshot for every neighbour (every known-router neighbour when asked) |
| Almost4.InitialTableShape | almost4.py:37-51 | the fresh table is square over the other routers and has no row for the router itself |
| Almost4.InitialTableCells | almost4.py:44-49 | each diagonal is the direct link cost (infinity without a link) and every off-diagonal cell is infinite |
| Almost4.InitialBestIsDirect | almost4.py:37-51 | in a fresh table the best cost to a destination is the direct link cost |
| Almost4.SmallestViaMinUnique | almost4.py:111-128 | the routing entry of least cost and smallest via name is unique |
| Almost4.Router.constructor | almost4.py:31-35 | a new router has empty tables and is not flagged |
| Almost4.Router.InitializeDistanceTable | almost4.py:37-51 | the table gains the fresh rows over all other routers (overwriting any it had), and `changed` is raised |
| Almost4.Router.BuildRow | almost4.py:43-49 | a row: the link cost on the diagonal, infinity at every other via |
| Almost4.Router.UpdateDistanceTable | almost4.py:53-75 | the table becomes the `SkipUnknownDest` relaxation through the sender, and `changed` is raised exactly when the table changed (never lowered) |
| Almost4.Router.GetDistanceTableCopy | almost4.py:77-83 | the copy equals the table; it is a value, so later writes cannot reach it |
| Almost4.Router.CreateRoutingTable | almost4.py:111-128 | the routing table is rebuilt with an entry per destination: the minimum cost and the smallest via attaining it, or no hop at infinity; the distance table is untouched |
| Almost4.RouteFor | almost4.py:114-128 | one destination's entry: minimum cost, smallest via of that cost, no hop exactly when the cost is infinite |
| Almost4.RoutesFor | almost4.py:111-128 | an entry for every destination of the table, each as `RouteFor` |
| Almost4.UpdateTable | almost4.py:53-75 | the update on values: the relaxed table, and `changed` raised exactly on a change |
| Almost4.SkipAt | almost4.py:63-71 | a row is rewritten at the sender's column only when the sender knows the destination |
| Almost4.RelaxThrough | almost4.py:63-71 | the destination loop returns the relaxation through the sender |
| Almost4.DeliverUpdates | almost4.py:197-200 | delivering the queued updates in order reaches the delivery invariant, and `any_changed` says whether some router ends flagged |
| Almost4.Round | almost4.py:182-203 | one loop body yields `RoundOf(SkipUnknownDest)`, and its `any_changed` is whether some router ends flagged |
| Almost4.Converge | almost4.py:180-209 | the loop's state is the `rounds`-th round; when it stops, no router is flagged and the state is a fixed point of the round |
| Almost4.ReinitialisedShaped | almost4.py:244-247 | after re-initialisation the network is square and every router is flagged |
| Almost4.InitializeAll | almost4.py:246-247 | re-initialising every router overwrites each old table completely |
| Almost4.Startup | almost4.py:149-171 | the graph holds the initial section's changes (with guarded removal), and every router is freshly initialised |
| Almost4.UpdateSection | almost4.py:216-247 | the graph takes every change; new endpoints become routers; with at least one change the names are sorted and every table re-initialised, otherwise nothing changes |
| Almost4.UpdateLine | almost4.py:222-239 | one input line: new endpoints become routers and the graph takes the change |
| Almost4.GrowTables | almost4.py:227-232 | new endpoints get an empty table and join the names |
| Almost1.Others | almost1.py:40 | the other names are the input names minus self, without duplicates |
| Almost1.InfTable | almost1.py:40-44 | the all-infinite table is square over the given names |
| Almost1.InfRow | almost1.py:43-44 | a row of infinities over the given vias |
| Almost1.BuildInfTable | almost1.py:40-44 | the constructor's loop builds a square all-infinite table over the other names |
| Almost1.EarliestViaMinUnique | almost1.py:103-112 | a routing entry that is minimal and earliest in via order is unique |
| Almost1.FirstMinIsEarliest | almost1.py:106-111 | the strict-`<` scan in table order yields the minimum cost, no hop exactly at infinity, and a hop before which every via costs strictly more |
| Almost1.RoutesInOrder | almost1.py:103-112 | every destination gets the earliest via of minimum cost in table order |
| Almost1.ResyncTable | almost1.py:46-65 | the table becomes its resynchronisation with the neighbours, and `changed` is raised exactly when a cell changed |
| Almost1.ReceiveTable | almost1.py:67-83 | the table becomes the `InfForUnknownDest` relaxation through the sender, and `changed` is raised exactly on a change |
| Almost1.DeliverUpdates | almost1.py:141-145 | delivering the queued updates in order reaches the delivery invariant |
| Almost1.Round | almost1.py:131-145 | sending then delivering yields `RoundOf(InfForUnknownDest)` |
| Almost1.CellsAgreeIsEqual | almost1.py:153-161 | for tables of the same shape, cell-by-cell agreement is equality |
| Almost1.SameCells | almost1.py:153-159 | the cell loop tests whether every cell equals the previous copy |
| Almost1.Converged | almost1.py:148-161 | `converged` holds exactly when every router has a previous copy and every one of its cells agrees |
| Almost1.CopyTables | almost1.py:127-129 | the round-start snapshot equals the current tables |
| Almost1.RoundConvergedIffQuiet | almost1.py:147-164 | after a round, every table equals its round-start copy exactly when no router is flagged |
| Almost1.RoundFlagsAreChanges | almost1.py:82-83 | after a round each flag is up exactly when that router's table changed |
| Almost1.RoundAndCompare | almost1.py:125-164 | one iteration yields the next round and `converged` exactly when nothing changed |
| Almost1.RoundNumbered | almost1.py:125-172 | the `k`-th iteration yields the `k+1`-th round |
| Almost1.RunDistanceVector | almost1.py:122-174 | on convergence the returned counter `t` is the number of rounds run, the state is the `t`-th round, no router is flagged and the state is a fixed point; out of fuel, the counter is one past the fuel |
| Almost1.StartedTable | almost1.py:193-201 | a started router's table is square over the other routers |
| Almost1.StartedTableCell | almost1.py:193-201 | after start-up each diagonal is the link cost (infinity without a link), every other cell infinite |
| Almost1.StartedShaped | almost1.py:193-201 | the started network is square and every router flagged |
| Almost1.BuildRouters | almost1.py:194-197 | every router starts with the all-infinite table |
| Almost1.ResyncRouters | almost1.py:200-201 | resynchronising every router gives the started network |
| Almost1.Startup | almost1.py:177-201 | for distinct router names, the graph holds the initial edges and the network is the started one |
| Almost1.SeedTable | almost1.py:237-248 | the table becomes its seeding from the neighbours' routing tables, and the flag is raised exactly on a change |
| Almost1.ResyncSeedFlag | almost1.py:235-248 | the flag after resync and seeding is raised exactly when the final table differs from the starting one |
| Almost1.PostUpdateTable | almost1.py:233-248 | the post-update table keeps the router's rows and vias |
| Almost1.PostUpdatedShaped | almost1.py:233-248 | the post-update network is square |
| Almost1.PostUpdateTableSquare | almost1.py:233-248 | each post-update table is square over the other routers |
| Almost1.PostUpdateTestMatchesFlags | almost1.py:250-264 | starting from a quiet network, "some table differs from its pre-update copy" is "some router is flagged" |
| Almost1.PostUpdate | almost1.py:228-264 | the pass yields the post-update network, and `any_changed` is whether some table differs from before |
| Almost1.AnyTableChanged | almost1.py:251-261 | the cell loop finds a difference exactly when some table differs |
| Almost1.AgreeAllIsEqual | almost1.py:251-261 | for square networks, every cell agreeing is equality of all tables |
| Almost1.PostUpdateAll | almost1.py:234-248 | the loop over routers yields the post-update network |
| Almost1.PostUpdatedAt | almost1.py:233-248 | the post-update network's entry for a router is its post-update table and flag |
| Almost1.ResyncFits | almost1.py:53-62 | in a square network the cells the resync writes all exist |
| Almost1.SeedsFit | almost1.py:240-246 | in a square network the cells the seeding writes all exist, and no neighbour's routing table has an entry for that neighbour |
| Almost1.UpdateSection | almost1.py:217-264 | the graph takes every change (guarded removal), the network becomes the post-update network, and `any_changed` is whether some table changed |
| Almost1.AllRoutes | almost1.py:212-214 | every router's routing table is derived in its table order |
| Almost1.RoutesOf | almost1.py:103-112 | one router's routing table in its table order |
| Almost1Router.Router.constructor | almost1.py:33-44 | a new router has an all-infinite square table over the other names and is flagged |
| Almost1Router.Router.UpdateFromGraph | almost1.py:46-65 | the table becomes its resynchronisation and `changed` is raised exactly on a change |
| Almost1Router.Router.ReceiveUpdate | almost1.py:67-83 | the table becomes the `InfForUnknownDest` relaxation and `changed` is raised exactly on a change |
| Almost1Router.Router.GetDistanceTableCopy | almost1.py:85-92 | the copy equals the table |
| Almost1Router.Router.CreateRoutingTable | almost1.py:103-112 | the routing table is rebuilt: the earliest via of minimum cost per destination; the distance table is untouched |
| Queued.MinCost | DistanceVector.py:66-71 | the scan's cost is the row's minimum, infinity for an empty row |
| Queued.ProcessMessage | DistanceVector.py:47-58 | one message relaxes the `ExistingColumn` way and flags exactly on a change |
| Queued.ProcessFacts | test.py:55-59 | when the sender column exists the written cost is `diag[sender] + min(received row)` |
| Queued.ProcessInbox | DistanceVector.py:46-59 | handling the inbox in order gives `ProcessedInOrder`, and the table stays square |
| Queued.InboxDelivered | test.py:50-63 | processing an inbox of round-start snapshots from a lowered flag relaxes through exactly those senders and flags exactly on a change |
| Queued.PostedAll | DistanceVector.py:143-144 | after every router's turn, each inbox's senders are exactly its advertisers |
| Queued.SendAll | DistanceVector.py:143-144 | the send phase fills every inbox with round-start snapshots from exactly its advertisers and lowers every flag |
| Queued.SendFrom | DistanceVector.py:39-44 | a flagged router's copies reach exactly its neighbours |
| Queued.SentAll | DistanceVector.py:41-44 | after every router is visited the sender is recorded at exactly its neighbours |
| Queued.ProcessRouter | DistanceVector.py:147-148 | one router's processing yields its table and flag in `RoundOf(ExistingColumn)` |
| Queued.InboxReadable | DistanceVector.py:52-56 | every queued snapshot can be read without a KeyError |
| Queued.ProcessAll | test.py:158-159 | the processing phase yields `RoundOf(ExistingColumn)` |
| Queued.Round | DistanceVector.py:143-148 | all sends then all processing yields `RoundOf(ExistingColumn)` and keeps tables square |
| Queued.SameTables | DistanceVector.py:151 | the comparison holds exactly when every table equals its previous copy |
| Queued.NoneFlagged | test.py:168 | the check holds exactly when no router is flagged |
| Queued.UnchangedIsFixed | test.py:160-161 | a round that leaves every table unchanged leads to a fixed point of the round |
| Queued.RoundAndTest | DistanceVector.py:143-166 | one iteration stops as `Unchanged` exactly when the tables equal the previous copy, as `Quiet` exactly when they differ and no router is flagged; the copy and the counter advance only when it goes on printing |
| Queued.MapsEqualIff | test.py:160 | two table maps with the same keys are equal exactly when every entry is |
| Queued.RunRounds | test.py:153-169 | the loop's state is the `rounds`-th round; the stop reason is the one the loop met, and the counter advances once per printed round |
| Queued.StoppedIsFixed | DistanceVector.py:151-166 | either stop of the loop leaves a fixed point of the round |
| Queued.RoundsShaped | DistanceVector.py:141-166 | any number of rounds keeps every table square |
| Queued.Converge | DistanceVector.py:139-166 | from start-up, the loop ends at the `rounds`-th round; when it stops on its own the state is a fixed point |
| Queued.ResyncFresh | DistanceVector.py:126-131 | on an all-infinite table, purging non-neighbour columns changes nothing, so resyncing against a prefix of the routers is resyncing against none |
| Queued.AddVertices | test.py:126-129 | every named router enters the graph with no neighbours |
| Queued.FreshTable | DistanceVector.py:16-19 | an all-infinite square table over the other names, in sorted order or in input order |
| Queued.Startup | test.py:122-144 | the graph is the named vertices with the initial edges, and every router holds the started table (link costs on the diagonal, infinity elsewhere) and is flagged |
| Queued.StartRouters | DistanceVector.py:126-131 | the start-up loop gives every router its started table and order |
| Queued.Reseed | DistanceVector.py:80-94 | the table becomes the resync against all routers followed by the seeding, stays square, and ends flagged |
| Queued.ProcessAfterUpdate | test.py:86-100 | one router's post-update table and flag, as in the reseeded network |
| Queued.ProcessAllAfterUpdate | DistanceVector.py:185-186 | every router in turn yields the reseeded network, square, with the same routers |
| Queued.UpdateSection | test.py:175-192 | the graph takes every change, the network becomes the reseeded one, and `any_changed` is whether some table differs from before |
| Queued.AllRoutes | test.py:74-77 | every router's routing table is derived in its table order |
| Queued.SecondPhase | DistanceVector.py:196-215 | the second loop's state is the `rounds`-th round after reseeding, and a loop that stops on its own ends at a fixed point. The exception is `DistanceVector.py` stopping at round one: its first round is compared with the tables from before the UPDATE section, so that stop only says the round reproduced those tables. `Run.SecondPhaseSettles` rules that case out |
| Consistency.StartedConsistent | DistanceVector.py:126-131 | after start-up every direct-link cell holds the link's weight, and every column without a link behind it is infinite |
| Consistency.RoundCell | DistanceVector.py:46-59 | a round writes cell `[d][v]` only when `v` is a flagged neighbour, and then with the direct cost to `v` plus `v`'s minimum for `d`; every other cell keeps its value |
| Consistency.RoundConsistent | DistanceVector.py:141-148 | on a symmetric graph a round keeps the invariant: link cells, infinite columns without a link, and each unflagged neighbour's column agreeing with that neighbour's table |
| Consistency.RoundsConsistent | DistanceVector.py:141-166 | any number of rounds from a consistent state keeps it consistent, with the same routers |
| Consistency.FixedIsQuiet | DistanceVector.py:151-166 | in a fixed point of the round no router is flagged |
| Consistency.RoutingTablesCost | DistanceVector.py:61-71 | each routing entry's cost is the minimum of its distance-table row |
| Consistency.EchoedCell | DistanceVector.py:52-56 | in a consistent network with no router flagged, a neighbour's column holds the link weight plus that neighbour's routing cost |
| Consistency.PostUpdateCell | DistanceVector.py:79-94 | after the pass a cell is infinite without a link, the link weight on the diagonal, and otherwise the link weight plus the neighbour's routing cost |
| Consistency.PassKeepsTable | DistanceVector.py:79-94 | after a first phase that ended in a fixed point, a pass that writes every direct-link cell with its old value leaves the whole table unchanged |
| Consistency.NoOpPass | test.py:186-193 | an UPDATE section that leaves the graph as it was changes no table after a first phase that ended in a fixed point |
| Consistency.PassUndone | DistanceVector.py:184-203 | the first round after the pass gives back the tables from before the pass only if the pass changed no table |
| Run.Simulate | DistanceVector.py:116-215 | a whole run: the graph after both sections; a stopped first phase is a fixed point; `changed` says whether the pass changed a table; an UPDATE section that leaves the graph as it was changes none; when it changed one, a stopped second phase is a fixed point |
| Run.FirstPhase | test.py:122-169 | start-up then the first loop: the tables stay consistent with the graph, and a stop is a fixed point |
| Run.StartedHistory | DistanceVector.py:138-166 | every state of the first phase keeps the start-up invariant and the set of routers |
| Run.SecondPhaseSettles | DistanceVector.py:197-215 | after a pass that changed some table, every stop of the second loop, including a stop at round one against the old copy, is a fixed point |
| Walks.CandidateSound | almost4.py:63-71 | a cell written from a sender is, when finite, the weight of a walk over the link to that sender |
| Walks.RelaxAllSound | almost1.py:73-81 | a round's relaxations keep every finite cell the weight of a real walk |
| Walks.RoundSound | almost4.py:182-203 | one round under any version's rule keeps every table sound |
| Walks.RoundsSound | almost1.py:122-174 | any number of rounds keeps every table sound |
| Walks.StartedSound | almost1.py:193-201 | the start-up tables are sound: each finite cell is a direct link |
| Walks.ReinitialisedSound | almost4.py:244-247 | the re-initialised tables are sound |
| Walks.StartedNeverUnderEstimates | DistanceVector.py:138-166 | after any number of rounds from start-up, every finite cell `[d][v]` of router `n` is the weight of a walk from `n` over its link to `v` to `d`, so it is never below the shortest-path cost |
| Walks.ReinitialisedNeverUnderEstimates | almost4.py:180-209 | the same for every phase of `almost4.py`, which starts from re-initialised tables |
| QueuedRouter.Router.constructor | DistanceVector.py:9-14 | a new router has an empty table, inbox and routing table and is not flagged |
| QueuedRouter.Router.InitializeDistanceTable | DistanceVector.py:16-19 | the other names in sorted order, and an all-infinite table over them |
| QueuedRouter.Router.SetupCostTable | test.py:16-23 | the other names in input order, and an all-infinite table over them |
| QueuedRouter.Router.UpdateSelf | DistanceVector.py:29-37 | the table is resynchronised with the neighbours and the listed routers, and the flag is raised unconditionally |
| QueuedRouter.Router.SendUpdates | test.py:43-48 | when flagged, every listed neighbour's inbox gains one copy of the table, in list order; the flag ends lowered either way |
| QueuedRouter.Router.ProcessReceivedTables | DistanceVector.py:46-59 | the inbox is handled in order as `ProcessedInOrder`, then emptied |
| QueuedRouter.Router.FindMinCost | test.py:65-72 | the earliest via of minimum cost in table order, with no hop exactly at infinity |
| QueuedRouter.Router.CreateRoutingTable | DistanceVector.py:61-64 | every destination's entry is the earliest via of minimum cost; entries for other destinations stay; the distance table is untouched |
| QueuedRouter.Router.ProcessAfterUpdate | DistanceVector.py:80-94 | the inbox is discarded, the table is resynced and seeded, and the router ends flagged |

## Left out

- Reading stdin and parsing the START/UPDATE/END sections. The model takes the router names and the edge changes as parameters (`seq<Node>`, `seq<EdgeChange>`).
- All printing and formatting, including the `INF` spelling and `int(cost)`. Output only.
- `sys.exit` and the process lifecycle. The model stops at the value that decides whether a later phase runs (`made`, `anyChanged`).
- Termination of the round loops. After an edge removal, costs can count upward forever, because finite sums never reach infinity. Every loop takes a `fuel` bound and reports `OutOfFuel`; nothing is claimed about the rounds the fuel cuts off.
- Floating point. `math.inf` is the `Inf` constructor with saturating addition; every finite cost is a natural number.
- Negative weights other than the removal sentinel -1: `ValidChange` and the start-up preconditions require weights of at least -1, and 0 or more where -1 is not handled.
- Python's dict iteration order. It is modelled only where it decides a result: the via order that breaks routing ties is an explicit `order` sequence. Elsewhere the model proves the result does not depend on order (`Relaxation.RelaxAllStep`).
- Almost4.Router.UpdateDistanceTable: requires every sender row it reads to be non-empty, as `min()` of an empty row would raise. No run of the program breaks this: snapshots of a square network have no empty row off the sender's own (`Exchange.SnapshotUsable`), and in a one-router network the only table is empty and a self-send returns before any row is read (almost4.py:53-54). The loop model discharges it with that lemma.
- Almost1Router.Router.ReceiveUpdate: requires the same non-empty sender rows, and it is met the same way: square snapshots (`Exchange.SnapshotUsable`), and a sender without a row returns at once (almost1.py:67-68).
- Queued.Startup: requires every edge to join two named routers (`LinksToRouters`), because any other edge raises KeyError in `update_self` / `refresh_costs`.
- Queued.UpdateSection: requires the same of the graph after the update, for the same reason.
- Queued.ProcessInbox: requires every queued table to have a row for the sender and for each destination it relaxes (`Readable`), which holds for copies of square tables and otherwise raises KeyError.
- Queued.Startup: requires distinct router names. With a duplicate name, `setup_cost_table` removes only its first occurrence.
- QueuedRouter.Router.InitializeDistanceTable: modelled only on the empty table of a new router, the only state the program calls it in.
- QueuedRouter.Router.SetupCostTable: same restriction.
- QueuedRouter.Router.UpdateSelf: requires every neighbour to have a row and every listed router a column. A neighbour without a row raises KeyError at the diagonal write (DistanceVector.py:32, test.py:36). A listed router without a column would gain one from the purge loop (DistanceVector.py:33-36), which the model does not cover. The program always passes routers that have both.
- Almost1Router.Router.UpdateFromGraph: requires every listed router other than itself to have a column, because the purge loop reads the old cell first (almost1.py:62) and raises KeyError otherwise. It does not require neighbours to have a row: a neighbour without one is skipped (almost1.py:52).
- QueuedRouter.Router.ProcessAfterUpdate: takes the other routers' routing tables as a map from name to routing table, not the list of router objects.
- The main loops of `DistanceVector.py` and `test.py` run over a value holding every router's table and flag (`Exchange.Net`) and a map of inboxes, not over `Router` objects. The class methods in `QueuedRouter` are proved against the same functions (`ProcessedInOrder`, `Resync`, `Seeded`, `FirstMin`) that the loop model uses.
- An inbox left over from a previous round. Every inbox is empty between rounds in the source too, because processing empties it; the loop model starts each round from empty inboxes.
- Queued.MinCost: returns only the cost of the received row's minimum, the only part `process_received_tables` reads.
- Run.Simulate: models `DistanceVector.py` with the old copy (`refresh` false) and `test.py` with a fresh one, and leaves out only the printing between the phases.
- The bound of `Walks` after the seeding pass of `almost1.py`, `DistanceVector.py` and `test.py`, because it does not hold there. Take a line A-B-C with weights 1, then `B C -1`. C becomes unreachable, yet almost1.py:240-246 sets A's cell `[C][B]` to 1 + 1 from B's stale routing entry. The bound is proved from start-up and for `almost4.py`, which re-initialises instead of seeding.
- The no-op UPDATE section for `almost1.py`. Its rounds relax under a different rule, for which the `Consistency` invariant is not stated. For `DistanceVector.py` and `test.py` it is proved (`Consistency.NoOpPass`).
- Almost1.Startup: requires distinct router names. A repeated name gets two routers; only the first hears its neighbours, and since the previous copies are keyed by name, both are compared against the copy of the last one's table (almost1.py:127-129, 149-155).
- `almost4.py`'s routing entry `('INF', 'INF')` and the other versions' `(None, inf)` are the same `Route(None, Inf)`.
