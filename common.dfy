/** Values shared by every version of the distance-vector simulator: router
    names, costs with a saturating infinity, distance tables, and the scans
    that find a row's minimum. */
module Common {

  /** Router identifiers are strings, ordered by code point as in Python. */
  type Node = string

  datatype Option<T> = None | Some(value: T)

  /** A link or path cost: a natural number, or the `math.inf` sentinel. */
  datatype Cost = Fin(n: nat) | Inf

  /** Python's `<` on costs: every finite cost is below infinity, infinity is below nothing. */
  predicate Less(a: Cost, b: Cost) {
    a.Fin? && (b.Inf? || a.n < b.n)
  }

  /** Python's `+` on costs: infinity absorbs everything, finite sums never reach it. */
  function Add(a: Cost, b: Cost): Cost {
    if a.Inf? || b.Inf? then Inf else Fin(a.n + b.n)
  }

  /** One row of a distance table: via node to cost. */
  type Row = map<Node, Cost>

  /** A distance table: destination to row. */
  type Table = map<Node, Row>

  /** A routing-table entry: the next hop (None when unreachable) and its cost. */
  datatype Route = Route(nextHop: Option<Node>, cost: Cost)

  function Elems(s: seq<Node>): set<Node> {
    set x | x in s
  }

  /** The names in a prefix one longer: one more name. */
  lemma ElemsPrefix(s: seq<Node>, i: nat)
    requires i < |s|
    ensures Elems(s[..i + 1]) == Elems(s[..i]) + {s[i]}
  {
    assert s[..i + 1] == s[..i] + [s[i]];
  }

  predicate Distinct(s: seq<Node>) {
    forall i, j :: 0 <= i < j < |s| ==> s[i] != s[j]
  }

  /** Every row exists for exactly `keys`, and every row has exactly `keys` as vias. */
  predicate Square(t: Table, keys: set<Node>) {
    t.Keys == keys && forall d :: d in t ==> t[d].Keys == keys
  }

  /** `table.get(s, {}).get(s, inf)`: the direct cost to `s` held on the diagonal. */
  function DiagOf(t: Table, s: Node): Cost {
    if s in t && s in t[s] then t[s][s] else Inf
  }

  /** `neighbors.get(n, inf)`: the link cost to `n`, or infinity without a link. */
  function LinkCost(links: map<Node, nat>, n: Node): Cost {
    if n in links then Fin(links[n]) else Inf
  }

  // ---------------------------------------------------------------------------
  // The minimum of a row, independent of any iteration order

  /** `c` is the minimum of `row`: nothing in the row is below it, and a finite
      `c` is attained; the minimum of an empty or all-infinite row is infinity. */
  ghost predicate IsMin(c: Cost, row: Row) {
    && (forall v :: v in row ==> !Less(row[v], c))
    && (c.Fin? ==> exists v :: v in row && row[v] == c)
  }

  lemma MinUnique(c1: Cost, c2: Cost, row: Row)
    requires IsMin(c1, row) && IsMin(c2, row)
    ensures c1 == c2
  {
    if c1.Fin? {
      var v1 :| v1 in row && row[v1] == c1;
      assert !Less(row[v1], c2);
    }
    if c2.Fin? {
      var v2 :| v2 in row && row[v2] == c2;
      assert !Less(row[v2], c1);
    }
  }

  /** A cell that nothing in its row undercuts holds the row's minimum. */
  lemma MinAt(row: Row, v: Node)
    requires v in row && forall u :: u in row ==> !Less(row[u], row[v])
    ensures MinOf(row) == row[v]
  {
    MinUnique(MinOf(row), row[v], row);
  }

  /** Every row has a minimum: infinity for an empty row, otherwise the smaller
      of one cell and the minimum of the rest. */
  lemma {:induction false} MinExists(row: Row)
    ensures exists c :: IsMin(c, row)
    decreases |row|
  {
    if row == map[] {
      assert IsMin(Inf, row);
    } else {
      var v :| v in row;
      var rest := row - {v};
      MinExists(rest);
      var m :| IsMin(m, rest);
      var c := if Less(row[v], m) then row[v] else m;
      forall u | u in row
        ensures !Less(row[u], c)
      {
        if u != v {
          assert u in rest && rest[u] == row[u];
        }
      }
      if c.Fin? && c != row[v] {
        var u :| u in rest && rest[u] == m;
        assert row[u] == c;
      }
      assert IsMin(c, row);
    }
  }

  /** Python's `min(row.values())`, taken as infinity for an empty row. */
  ghost function MinOf(row: Row): (c: Cost)
    ensures IsMin(c, row)
  {
    MinExists(row);
    var c :| IsMin(c, row);
    c
  }

  /** Computes `min(row.values())` over a non-empty row (Python raises on an empty one). */
  method MinValue(row: Row) returns (c: Cost)
    requires row != map[]
    ensures c == MinOf(row)
  {
    var keys := row.Keys;
    var first :| first in keys;
    c := row[first];
    keys := keys - {first};
    while keys != {}
      invariant keys <= row.Keys
      invariant forall u :: u in row && u !in keys ==> !Less(row[u], c)
      invariant exists u :: u in row && row[u] == c
      decreases |keys|
    {
      var v :| v in keys;
      if Less(row[v], c) {
        c := row[v];
      }
      keys := keys - {v};
    }
    MinUnique(c, MinOf(row), row);
  }

  // ---------------------------------------------------------------------------
  // The ordered scan: start from (infinity, None) and keep each strictly smaller cost

  function Step(row: Row, best: Route, v: Node): Route
    requires v in row
  {
    if Less(row[v], best.cost) then Route(Some(v), row[v]) else best
  }

  /** The scan of `find_min_cost` / `min_cost` / the routing-table loops over the
      vias of a row in `order`: the minimum cost, with the via that first reached it. */
  function FirstMin(row: Row, order: seq<Node>): (r: Route)
    requires forall i :: 0 <= i < |order| ==> order[i] in row
    ensures r.nextHop.None? <==> r.cost == Inf
    ensures r.nextHop.Some? ==> r.nextHop.value in order && row[r.nextHop.value] == r.cost
    ensures forall i :: 0 <= i < |order| ==> !Less(row[order[i]], r.cost)
    decreases |order|
  {
    if order == [] then Route(None, Inf)
    else Step(row, FirstMin(row, order[..|order| - 1]), order[|order| - 1])
  }

  /** The scan loop itself: walk `order`, keeping a via whose cost is strictly
      below the best so far. */
  method ScanMin(row: Row, order: seq<Node>) returns (r: Route)
    requires forall i :: 0 <= i < |order| ==> order[i] in row
    ensures r == FirstMin(row, order)
  {
    r := Route(None, Inf);
    var i := 0;
    while i < |order|
      invariant 0 <= i <= |order|
      invariant r == FirstMin(row, order[..i])
    {
      assert order[..i + 1][..i] == order[..i];
      var v := order[i];
      if Less(row[v], r.cost) {
        r := Route(Some(v), row[v]);
      }
      i := i + 1;
    }
    assert order[..|order|] == order;
  }

  /** The scan's cost is the minimum of the whole row when `order` lists its vias. */
  lemma FirstMinIsMin(row: Row, order: seq<Node>)
    requires Elems(order) == row.Keys
    ensures FirstMin(row, order).cost == MinOf(row)
  {
    var r := FirstMin(row, order);
    forall v | v in row
      ensures !Less(row[v], r.cost)
    {
      assert v in Elems(order);
      var i :| 0 <= i < |order| && order[i] == v;
    }
    MinUnique(r.cost, MinOf(row), row);
  }

  /** Tie-break of the scan: every via listed before the chosen next hop costs
      strictly more, so the next hop is the first via in `order` that attains
      the minimum. */
  lemma {:induction false} FirstMinIsFirst(row: Row, order: seq<Node>, k: nat)
    requires forall i :: 0 <= i < |order| ==> order[i] in row
    requires Distinct(order) && k < |order|
    requires FirstMin(row, order).nextHop == Some(order[k])
    ensures forall i :: 0 <= i < k ==> Less(FirstMin(row, order).cost, row[order[i]])
    decreases |order|
  {
    var n := |order|;
    var p := order[..n - 1];
    var last := order[n - 1];
    var best := FirstMin(row, p);
    if Less(row[last], best.cost) {
      assert k == n - 1;
      forall i | 0 <= i < k
        ensures Less(row[last], row[order[i]])
      {
        assert order[i] == p[i];
        assert !Less(row[p[i]], best.cost);
      }
    } else {
      var hop := best.nextHop.value;
      assert hop in p;
      var j :| 0 <= j < |p| && p[j] == hop;
      assert order[j] == hop;
      assert k == j;
      forall i | 0 <= i < n - 1
        ensures p[i] in row
      {
        assert p[i] == order[i];
      }
      FirstMinIsFirst(row, p, k);
      forall i | 0 <= i < k
        ensures Less(best.cost, row[order[i]])
      {
        assert order[i] == p[i];
      }
    }
  }

  // ---------------------------------------------------------------------------
  // Python's ordering of strings, and `sorted`

  /** Python's `<` on strings: code-point lexicographic, a proper prefix first. */
  predicate LexLess(a: string, b: string)
    decreases |a|
  {
    if |a| == 0 then |b| > 0
    else if |b| == 0 then false
    else if a[0] != b[0] then a[0] < b[0]
    else LexLess(a[1..], b[1..])
  }

  lemma {:induction false} LexLessIrreflexive(a: string)
    ensures !LexLess(a, a)
    decreases |a|
  {
    if |a| > 0 {
      LexLessIrreflexive(a[1..]);
    }
  }

  lemma {:induction false} LexLessTransitive(a: string, b: string, c: string)
    requires LexLess(a, b) && LexLess(b, c)
    ensures LexLess(a, c)
    decreases |a|
  {
    if |a| > 0 && |b| > 0 && |c| > 0 && a[0] == b[0] && b[0] == c[0] {
      LexLessTransitive(a[1..], b[1..], c[1..]);
    }
  }

  lemma {:induction false} LexLessTotal(a: string, b: string)
    requires a != b
    ensures LexLess(a, b) || LexLess(b, a)
    decreases |a|
  {
    if |a| > 0 && |b| > 0 && a[0] == b[0] {
      assert a == [a[0]] + a[1..] && b == [b[0]] + b[1..];
      LexLessTotal(a[1..], b[1..]);
    }
  }

  lemma LexLessAsymmetric(a: string, b: string)
    requires LexLess(a, b)
    ensures !LexLess(b, a)
  {
    if LexLess(b, a) {
      LexLessTransitive(a, b, a);
      LexLessIrreflexive(a);
    }
  }

  /** Strictly increasing in Python's string order (hence without repetition). */
  predicate SortedStrict(s: seq<Node>) {
    forall i, j :: 0 <= i < j < |s| ==> LexLess(s[i], s[j])
  }

  lemma SortedIsDistinct(s: seq<Node>)
    requires SortedStrict(s)
    ensures Distinct(s)
  {
    forall i, j | 0 <= i < j < |s|
      ensures s[i] != s[j]
    {
      LexLessIrreflexive(s[i]);
    }
  }

  /** Inserts `x` into a strictly sorted sequence, keeping it strictly sorted. */
  function Insert(s: seq<Node>, x: Node): (r: seq<Node>)
    requires SortedStrict(s)
    ensures SortedStrict(r) && Elems(r) == Elems(s) + {x}
  {
    if s == [] then [x]
    else if x == s[0] then s
    else if LexLess(x, s[0]) then
      LexLessAllAbove(s, x);
      [x] + s
    else
      LexLessTotal(x, s[0]);
      var tail := Insert(s[1..], x);
      assert Elems(s) == {s[0]} + Elems(s[1..]);
      assert forall y :: y in Elems(tail) ==> LexLess(s[0], y) by {
        forall y | y in Elems(tail)
          ensures LexLess(s[0], y)
        {
          if y != x {
            var i :| 0 <= i < |s[1..]| && s[1..][i] == y;
            assert s[i + 1] == y;
          }
        }
      }
      ConsSorted(s[0], tail);
      assert Elems([s[0]] + tail) == {s[0]} + Elems(tail);
      [s[0]] + tail
  }

  lemma LexLessAllAbove(s: seq<Node>, x: Node)
    requires SortedStrict(s) && |s| > 0 && LexLess(x, s[0])
    ensures SortedStrict([x] + s)
  {
    forall j | 0 < j < |s|
      ensures LexLess(x, s[j])
    {
      LexLessTransitive(x, s[0], s[j]);
    }
  }

  lemma ConsSorted(x: Node, s: seq<Node>)
    requires SortedStrict(s)
    requires forall y :: y in Elems(s) ==> LexLess(x, y)
    ensures SortedStrict([x] + s)
  {
    forall i, j | 0 <= i < j < |[x] + s|
      ensures LexLess(([x] + s)[i], ([x] + s)[j])
    {
      if i == 0 {
        assert ([x] + s)[j] == s[j - 1];
        assert s[j - 1] in Elems(s);
      }
    }
  }

  /** Python's `sorted(names)`: the names in increasing order, each once. */
  method SortNames(names: set<Node>) returns (s: seq<Node>)
    ensures SortedStrict(s) && Elems(s) == names
  {
    s := [];
    var rest := names;
    while rest != {}
      invariant rest <= names
      invariant SortedStrict(s) && Elems(s) + rest == names
      decreases |rest|
    {
      var x :| x in rest;
      s := Insert(s, x);
      rest := rest - {x};
    }
  }

  /** On a sorted scan order, the chosen next hop is the smallest via, in Python's
      string order, among those that attain the minimum. */
  lemma SortedScanPicksSmallest(row: Row, order: seq<Node>)
    requires SortedStrict(order) && Elems(order) == row.Keys
    ensures forall v, u :: FirstMin(row, order).nextHop == Some(v) && u in row && row[u] == row[v] ==> u == v || LexLess(v, u)
  {
    SortedIsDistinct(order);
    var r := FirstMin(row, order);
    forall v, u | r.nextHop == Some(v) && u in row && row[u] == row[v]
      ensures u == v || LexLess(v, u)
    {
      var k :| 0 <= k < |order| && order[k] == v;
      assert u in Elems(order);
      var j :| 0 <= j < |order| && order[j] == u;
      FirstMinIsFirst(row, order, k);
    }
  }

  /** `get_distance_table_copy` of almost4.py and almost1.py: a cell-by-cell
      copy. Tables are values here, so the copy cannot be affected by later
      updates of the router it was taken from. */
  method CopyTable(t: Table) returns (copy: Table)
    ensures copy == t
  {
    copy := map[];
    var dests := t.Keys;
    while dests != {}
      invariant dests <= t.Keys
      invariant forall d :: d in copy <==> d in t && d !in dests
      invariant forall d :: d in copy ==> copy[d] == t[d]
      decreases |dests|
    {
      var dest :| dest in dests;
      dests := dests - {dest};
      var row := CopyRow(t[dest]);
      copy := copy[dest := row];
    }
    MapsEqual(copy, t);
  }

  /** The inner loop of the copy: one row, via by via. */
  method CopyRow(row: Row) returns (copy: Row)
    ensures copy == row
  {
    copy := map[];
    var vias := row.Keys;
    while vias != {}
      invariant vias <= row.Keys
      invariant forall v :: v in copy <==> v in row && v !in vias
      invariant forall v :: v in copy ==> copy[v] == row[v]
      decreases |vias|
    {
      var via :| via in vias;
      vias := vias - {via};
      copy := copy[via := row[via]];
    }
    MapsEqual(copy, row);
  }

  /** A loop that writes each cell at most once raises its dirty flag on the
      first write that changes a cell: writing `x` into a cell that still holds
      its original value (or already holds `x`) leaves the table different from
      the original exactly when it was already different or the cell changes. */
  lemma CellWrite(t0: Table, r: Table, d: Node, v: Node, x: Cost)
    requires d in t0 && v in t0[d] && d in r && v in r[d]
    requires r[d][v] == x || r[d][v] == t0[d][v]
    ensures (r[d := r[d][v := x]] != t0) == (r != t0 || x != r[d][v])
  {
    var r' := r[d := r[d][v := x]];
    if x == r[d][v] {
      assert r[d][v := x] == r[d];
      assert r' == r;
    } else {
      assert r'[d][v] != t0[d][v];
    }
  }

  /** Maps with the same keys and the same entries are equal. */
  lemma MapsEqual<V>(a: map<Node, V>, b: map<Node, V>)
    requires a.Keys == b.Keys && forall k :: k in a ==> a[k] == b[k]
    ensures a == b
  {
  }

  /** A loop that replaces each router's entry in turn, part-way through:
      the routers in `pending` still hold their entry in `before`, every other
      router holds its entry in `after`. */
  ghost predicate ReplacedExcept<V>(before: map<Node, V>, after: map<Node, V>, cur: map<Node, V>, pending: set<Node>) {
    && pending <= before.Keys && cur.Keys == before.Keys
    && (forall n :: n in pending ==> cur[n] == before[n])
    && forall n :: n in before && n !in pending ==> n in after && cur[n] == after[n]
  }

  /** Replacing router `n`'s entry moves it out of `pending`. */
  lemma ReplacedStep<V>(before: map<Node, V>, after: map<Node, V>, cur: map<Node, V>, pending: set<Node>, n: Node)
    requires ReplacedExcept(before, after, cur, pending) && n in pending && n in after
    ensures ReplacedExcept(before, after, cur[n := after[n]], pending - {n})
  {
  }

  /** Before the loop nothing is replaced; after it, everything is. */
  lemma ReplacedEnds<V>(before: map<Node, V>, after: map<Node, V>, cur: map<Node, V>)
    requires after.Keys == before.Keys
    ensures ReplacedExcept(before, after, before, before.Keys)
    ensures ReplacedExcept(before, after, cur, {}) ==> cur == after
  {
  }

  /** Tables with the same rows, the same vias and the same cells are equal. */
  lemma TablesEqual(a: Table, b: Table)
    requires a.Keys == b.Keys
    requires forall d :: d in a ==> a[d].Keys == b[d].Keys && forall v :: v in a[d] ==> a[d][v] == b[d][v]
    ensures a == b
  {
    forall d | d in a
      ensures a[d] == b[d]
    {
      MapsEqual(a[d], b[d]);
    }
    MapsEqual(a, b);
  }
}
