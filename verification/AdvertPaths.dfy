/**
 * The table of recently heard advert paths: every observation is upserted, then the contact's rows are pruned to the
 * N most recent.
 */
module AdvertPaths {
  import opened Common

  datatype PathId = PathId(hex: string, hops: int)

  datatype Stats = Stats(firstSeen: int, lastSeen: int, heard: nat)

  /** One contact's rows. */
  type Table = map<PathId, Stats>

  datatype Observation = Observation(path: PathId, timestamp: int)

  // ------------------------------------------------------------ upsert and prune

  function Upsert(t: Table, o: Observation): Table {
    if o.path in t then
      t[o.path := Stats(t[o.path].firstSeen, Max(t[o.path].lastSeen, o.timestamp), t[o.path].heard + 1)]
    else t[o.path := Stats(o.timestamp, o.timestamp, 1)]
  }

  predicate LexLess(a: string, b: string) {
    if b == "" then false
    else if a == "" then true
    else a[0] < b[0] || (a[0] == b[0] && LexLess(a[1..], b[1..]))
  }

  predicate TieBreak(q: PathId, qs: Stats, p: PathId, ps: Stats) {
    || qs.heard > ps.heard
    || (qs.heard == ps.heard && (q.hops < p.hops || (q.hops == p.hops && LexLess(q.hex, p.hex))))
  }

  /** ORDER BY last_seen DESC, heard_count DESC, path_len ASC, path_hex ASC: q comes before p. */
  predicate Precedes(q: PathId, qs: Stats, p: PathId, ps: Stats) {
    qs.lastSeen > ps.lastSeen || (qs.lastSeen == ps.lastSeen && TieBreak(q, qs, p, ps))
  }

  function Ahead(t: Table, p: PathId): set<PathId>
    requires p in t
  {
    set q | q in t && Precedes(q, t[q], p, t[p])
  }

  /** LIMIT n under that order: the rows with fewer than n rows before them. */
  function Prune(t: Table, n: nat): Table {
    map p | p in t && |Ahead(t, p)| < n :: t[p]
  }

  function Run(h: seq<Observation>, n: nat): Table {
    if h == [] then map[] else Prune(Upsert(Run(h[..|h| - 1], n), h[|h| - 1]), n)
  }

  // ------------------------------------------------------------ reference: nothing is ever pruned

  /** When each path was last heard. */
  function Latest(h: seq<Observation>): map<PathId, int> {
    if h == [] then map[] else Latest(h[..|h| - 1])[h[|h| - 1].path := h[|h| - 1].timestamp]
  }

  function Later(u: map<PathId, int>, p: PathId): set<PathId>
    requires p in u
  {
    set q | q in u && u[q] > u[p]
  }

  /** The n most recently heard paths. */
  function Top(u: map<PathId, int>, n: nat): set<PathId> {
    set p | p in u && |Later(u, p)| < n
  }

  ghost predicate Increasing(h: seq<Observation>) {
    forall i, j :: 0 <= i < j < |h| ==> h[i].timestamp < h[j].timestamp
  }

  /** Last-heard times are observation times, so increasing observations give distinct ones. */
  lemma {:induction false} LatestFacts(h: seq<Observation>)
    requires Increasing(h)
    ensures forall p :: p in Latest(h) ==> h != [] && Latest(h)[p] <= h[|h| - 1].timestamp
    ensures forall p, q :: p in Latest(h) && q in Latest(h) && Latest(h)[p] == Latest(h)[q] ==> p == q
  {
    if |h| > 0 {
      LatestFacts(h[..|h| - 1]);
    }
  }

  /** The table agrees with the reference. */
  ghost predicate Matches(t: Table, u: map<PathId, int>, n: nat) {
    && t.Keys == Top(u, n)
    && forall p :: p in t ==> t[p].lastSeen == u[p]
  }

  /** Within a matching table the rows ahead of a path are all the paths heard later than it. */
  lemma RankAfterUpsert(t: Table, u: map<PathId, int>, n: nat, o: Observation, p: PathId)
    requires Matches(t, u, n)
    requires forall q :: q in u ==> u[q] < o.timestamp
    requires forall q, r :: q in u && r in u && u[q] == u[r] ==> q == r
    requires p in Upsert(t, o)
    ensures p in u[o.path := o.timestamp] && Upsert(t, o)[p].lastSeen == u[o.path := o.timestamp][p]
    ensures Ahead(Upsert(t, o), p) == Later(u[o.path := o.timestamp], p)
  {
    var i := Upsert(t, o);
    var u' := u[o.path := o.timestamp];
    assert forall q :: q in i ==> q in u' && i[q].lastSeen == u'[q];
    forall q | q in Later(u', p) ensures q in i {
      if q != o.path {
        assert q in u && u[q] > u[p];
        assert p in t && |Later(u, p)| < n;
        assert Later(u, q) <= Later(u, p);
        SubsetCount(Later(u, q), Later(u, p));
      }
    }
    forall q | q in i ensures Precedes(q, i[q], p, i[p]) <==> u'[q] > u'[p] {
      if u'[q] == u'[p] {
        assert q == p;
        NotBeforeItself(p, i[p]);
      }
    }
  }

  lemma NotBeforeItself(p: PathId, s: Stats)
    ensures !Precedes(p, s, p, s)
  {
    NotLess(p.hex);
  }

  lemma {:induction false} NotLess(a: string)
    ensures !LexLess(a, a)
  {
    if a != "" {
      NotLess(a[1..]);
    }
  }

  /** A path that had already dropped out stays out. */
  lemma DroppedStaysOut(u: map<PathId, int>, n: nat, o: Observation, p: PathId)
    requires forall q :: q in u ==> u[q] < o.timestamp
    requires p in u && p != o.path && p !in Top(u, n)
    ensures p !in Top(u[o.path := o.timestamp], n)
  {
    var u' := u[o.path := o.timestamp];
    assert Later(u, p) <= Later(u', p);
    SubsetCount(Later(u, p), Later(u', p));
  }

  lemma StepMatches(t: Table, u: map<PathId, int>, n: nat, o: Observation)
    requires Matches(t, u, n)
    requires forall q :: q in u ==> u[q] < o.timestamp
    requires forall q, r :: q in u && r in u && u[q] == u[r] ==> q == r
    ensures Matches(Prune(Upsert(t, o), n), u[o.path := o.timestamp], n)
  {
    var i := Upsert(t, o);
    var u' := u[o.path := o.timestamp];
    var pruned := Prune(i, n);
    forall p ensures p in pruned <==> p in Top(u', n) {
      if p in i {
        RankAfterUpsert(t, u, n, o, p);
      } else if p in u {
        DroppedStaysOut(u, n, o, p);
      }
    }
    forall p | p in pruned ensures pruned[p].lastSeen == u'[p] {
      RankAfterUpsert(t, u, n, o, p);
    }
  }

  /** Main result: pruning after every observation loses nothing.  For increasing timestamps and a fixed n the table
      holds exactly the n most recently heard paths of the whole history, with their true last-heard times. */
  lemma {:induction false} PruningIsInvisible(h: seq<Observation>, n: nat)
    requires Increasing(h)
    ensures Run(h, n).Keys == Top(Latest(h), n)
    ensures forall p :: p in Run(h, n) ==> Run(h, n)[p].lastSeen == Latest(h)[p]
  {
    if h != [] {
      var before := h[..|h| - 1];
      PruningIsInvisible(before, n);
      LatestFacts(before);
      StepMatches(Run(before, n), Latest(before), n, h[|h| - 1]);
    }
  }

  /** Reference: first time, latest time and number of the observations of one path. */
  function Full(h: seq<Observation>, p: PathId): Option<Stats> {
    if h == [] then None
    else
      var before := Full(h[..|h| - 1], p);
      var o := h[|h| - 1];
      if o.path != p then before
      else if before.None? then Some(Stats(o.timestamp, o.timestamp, 1))
      else
        var b := before.value;
        Some(Stats(b.firstSeen, if o.timestamp > b.lastSeen then o.timestamp else b.lastSeen, b.heard + 1))
  }

  /** While a contact has been heard by at most n paths, its rows tell of every observation, whatever the order of the
      timestamps. */
  lemma {:induction false} CountsAreTrue(h: seq<Observation>, n: nat, p: PathId)
    requires |Latest(h)| <= n
    ensures Full(h, p) == if p in Run(h, n) then Some(Run(h, n)[p]) else None
    ensures Run(h, n).Keys == Latest(h).Keys
  {
    if h != [] {
      var before := h[..|h| - 1];
      var o := h[|h| - 1];
      KeysWith(Latest(before), o.path, o.timestamp);
      SubsetCount(Latest(before).Keys, Latest(h).Keys);
      CountsAreTrue(before, n, p);
      UpsertKeys(Run(before, n), o);
      SmallTableStays(Upsert(Run(before, n), o), n);
    }
  }

  lemma UpsertKeys(t: Table, o: Observation)
    ensures Upsert(t, o).Keys == t.Keys + {o.path}
  {
  }

  lemma KeysWith<K, V>(m: map<K, V>, k: K, v: V)
    ensures m[k := v].Keys == m.Keys + {k}
  {
  }

  lemma SmallTableStays(t: Table, n: nat)
    requires |t.Keys| <= n
    ensures Prune(t, n) == t
  {
    forall p | p in t ensures |Ahead(t, p)| < n {
      NotBeforeItself(p, t[p]);
      assert Ahead(t, p) <= t.Keys - {p};
      SubsetCount(Ahead(t, p), t.Keys - {p});
    }
  }

  // ------------------------------------------------------------ the order of the query

  lemma {:induction false} LexTotal(a: string, b: string)
    ensures a == b || LexLess(a, b) || LexLess(b, a)
  {
    if a != "" && b != "" && a[0] == b[0] {
      LexTotal(a[1..], b[1..]);
      assert a == [a[0]] + a[1..] && b == [b[0]] + b[1..];
    }
  }

  lemma {:induction false} LexTransitive(a: string, b: string, c: string)
    requires LexLess(a, b) && LexLess(b, c)
    ensures LexLess(a, c)
  {
    if a != "" && a[0] == b[0] == c[0] {
      LexTransitive(a[1..], b[1..], c[1..]);
    }
  }

  /** The query's order is total and transitive on rows of different paths. */
  lemma OrderIsTotal(p: PathId, ps: Stats, q: PathId, qs: Stats)
    ensures p == q || Precedes(p, ps, q, qs) || Precedes(q, qs, p, ps)
  {
    LexTotal(p.hex, q.hex);
  }

  lemma OrderIsTransitive(p: PathId, ps: Stats, q: PathId, qs: Stats, r: PathId, rs: Stats)
    requires Precedes(p, ps, q, qs) && Precedes(q, qs, r, rs)
    ensures Precedes(p, ps, r, rs)
  {
    if LexLess(p.hex, q.hex) && LexLess(q.hex, r.hex) { LexTransitive(p.hex, q.hex, r.hex); }
  }

  /** What is kept comes before what is dropped, also among rows last heard in the same second: heard more often, or as
      often over fewer hops, or by the smaller path. */
  lemma KeptBeforeDropped(t: Table, n: nat, p: PathId, q: PathId)
    requires p in Prune(t, n) && q in t && q !in Prune(t, n)
    ensures || t[p].lastSeen > t[q].lastSeen
            || (t[p].lastSeen == t[q].lastSeen && t[p].heard > t[q].heard)
            || (t[p].lastSeen == t[q].lastSeen && t[p].heard == t[q].heard && p.hops < q.hops)
            || (t[p].lastSeen == t[q].lastSeen && t[p].heard == t[q].heard && p.hops == q.hops && LexLess(p.hex, q.hex))
  {
    OrderIsTotal(p, t[p], q, t[q]);
    if Precedes(q, t[q], p, t[p]) {
      forall r | r in Ahead(t, q) ensures r in Ahead(t, p) {
        OrderIsTransitive(r, t[r], q, t[q], p, t[p]);
      }
      SubsetCount(Ahead(t, q), Ahead(t, p));
    }
  }

  lemma {:induction false} LastRowExists(t: Table) returns (z: PathId)
    requires t != map[]
    ensures z in t && forall q :: q in t && q != z ==> Precedes(q, t[q], z, t[z])
    decreases |t|
  {
    z :| z in t;
    var rest := t - {z};
    if rest != map[] {
      assert t.Keys == rest.Keys + {z};
      var y := LastRowExists(rest);
      OrderIsTotal(z, t[z], y, t[y]);
      if Precedes(z, t[z], y, t[y]) {
        z := y;
      } else {
        forall q | q in t && q != z ensures Precedes(q, t[q], z, t[z]) {
          if q != y { OrderIsTransitive(q, t[q], y, t[y], z, t[z]); }
        }
      }
    }
  }

  lemma WithoutLastRow(t: Table, n: nat, z: PathId)
    requires z in t && forall q :: q in t && q != z ==> Precedes(q, t[q], z, t[z])
    ensures Prune(t, n).Keys == Prune(t - {z}, n).Keys + if |(t - {z}).Keys| < n then {z} else {}
  {
    var rest := t - {z};
    NotBeforeItself(z, t[z]);
    assert Ahead(t, z) == rest.Keys;
    forall q | q in rest ensures Ahead(t, q) == Ahead(rest, q) {
      if Precedes(z, t[z], q, t[q]) { OrderIsTransitive(q, t[q], z, t[z], q, t[q]); NotBeforeItself(q, t[q]); }
    }
  }

  /** Pruning keeps n rows, or all when there are fewer, also when times are equal. */
  lemma {:induction false} PruneCount(t: Table, n: nat)
    ensures |Prune(t, n).Keys| == Min(n, |t.Keys|)
    decreases |t|
  {
    if t != map[] {
      var z := LastRowExists(t);
      var rest := t - {z};
      assert t.Keys == rest.Keys + {z};
      PruneCount(rest, n);
      WithoutLastRow(t, n, z);
      assert z !in Prune(rest, n).Keys;
    } else {
      assert Prune(t, n).Keys == {};
    }
  }

  // ------------------------------------------------------------ how many rows that is

  lemma {:induction false} EarliestExists(u: map<PathId, int>) returns (p: PathId)
    requires u != map[]
    ensures p in u && forall q :: q in u ==> u[p] <= u[q]
    decreases |u|
  {
    p :| p in u;
    var rest := u - {p};
    if rest != map[] {
      assert u.Keys == rest.Keys + {p};
      var q := EarliestExists(rest);
      if u[q] < u[p] { p := q; }
    }
  }

  /** With distinct times the n most recent are n of them, or all when there are fewer. */
  lemma {:induction false} TopCount(u: map<PathId, int>, n: nat)
    requires forall q, r :: q in u && r in u && u[q] == u[r] ==> q == r
    ensures |Top(u, n)| == Min(n, |u|)
    decreases |u|
  {
    if u == map[] {
      assert Top(u, n) == {};
    } else {
      var p := EarliestExists(u);
      var rest := u - {p};
      assert u.Keys == rest.Keys + {p};
      assert |u| == |u.Keys| && |rest| == |rest.Keys|;
      TopCount(rest, n);
      WithoutEarliest(u, n, p);
    }
  }

  lemma WithoutEarliest(u: map<PathId, int>, n: nat, p: PathId)
    requires forall q, r :: q in u && r in u && u[q] == u[r] ==> q == r
    requires p in u && forall q :: q in u ==> u[p] <= u[q]
    ensures Top(u, n) == Top(u - {p}, n) + if |(u - {p}).Keys| < n then {p} else {}
    ensures p !in Top(u - {p}, n)
  {
    var rest := u - {p};
    assert Later(u, p) == rest.Keys;
    forall q | q in rest ensures Later(u, q) == Later(rest, q) {
    }
  }

  // ------------------------------------------------------------ the repository

  /** A path without a hop count is taken to have one-byte hops. */
  function HopsOf(pathHex: string, hopCount: Option<int>): int {
    if hopCount.Some? then hopCount.value else |pathHex| / 2
  }

  /** A call of record_observation: the normalised observation and the limit it is stored under. */
  ghost function Entry(pathHex: string, timestamp: int, maxPaths: int, hopCount: Option<int>): (Observation, nat) {
    (Observation(PathId(Lower(pathHex), HopsOf(pathHex, hopCount)), timestamp), Max(1, maxPaths))
  }

  /** In plain words: the path in lower case, its hops as given or else one per two digits, at least one row kept. */
  lemma EntryExactly(pathHex: string, timestamp: int, maxPaths: int, hopCount: Option<int>)
    ensures var (o, limit) := Entry(pathHex, timestamp, maxPaths, hopCount);
            && o.path.hex == Lower(pathHex) && o.timestamp == timestamp
            && (hopCount.Some? ==> o.path.hops == hopCount.value)
            && (hopCount.None? ==> 2 * o.path.hops <= |pathHex| < 2 * o.path.hops + 2)
            && (maxPaths >= 1 ==> limit == maxPaths) && (maxPaths < 1 ==> limit == 1)
  {
  }

  /** C is the type of contact keys (lower-case public keys). */
  class ContactAdvertPathRepository<C(==)> {
    var rows: map<C, Table>
    ghost var history: map<C, seq<(Observation, nat)>>  // per contact: what was observed, under which limit

    ghost predicate Valid()
      reads this
    {
      && rows.Keys == history.Keys
      && forall c :: c in rows ==> rows[c] == Replay(history[c])
    }

    constructor ()
      ensures Valid() && rows == map[] && history == map[]
    {
      rows, history := map[], map[];
    }

    method RecordObservation(contact: C, pathHex: string, timestamp: int, maxPaths: int, hopCount: Option<int>)
      requires Valid()
      modifies this
      ensures Valid()
      ensures history == old(history)[contact := old(Past(contact)) + [Entry(pathHex, timestamp, maxPaths, hopCount)]]
      ensures forall d :: d in old(rows) && d != contact ==> d in rows && rows[d] == old(rows)[d]
    {
      var limit := if maxPaths < 1 then 1 else maxPaths;
      var path := PathId(Lower(pathHex), HopsOf(Lower(pathHex), hopCount));
      var t := if contact in rows then rows[contact] else map[];
      ghost var h := Past(contact);
      assert t == Replay(h);
      t := Record(t, path, timestamp, limit);
      ReplaySnoc(h, Observation(path, timestamp), limit);
      assert (Observation(path, timestamp), limit) == Entry(pathHex, timestamp, maxPaths, hopCount);
      rows := rows[contact := t];
      history := history[contact := h + [Entry(pathHex, timestamp, maxPaths, hopCount)]];
    }

    /** What has been observed of a contact. */
    ghost function Past(contact: C): seq<(Observation, nat)>
      reads this
    {
      if contact in history then history[contact] else []
    }

    /** A contact observed at increasing times under one limit: its rows are the most recent paths of all time. */
    lemma HoldsMostRecent(c: C, h: seq<Observation>, n: nat)
      requires Valid() && c in rows && Increasing(h)
      requires history[c] == seq(|h|, i requires 0 <= i < |h| => (h[i], n))
      ensures rows[c].Keys == Top(Latest(h), n)
      ensures forall p :: p in rows[c] ==> rows[c][p].lastSeen == Latest(h)[p]
      ensures |rows[c].Keys| == Min(n, |Latest(h)|)
    {
      ReplayIsRun(h, n);
      PruningIsInvisible(h, n);
      LatestFacts(h);
      TopCount(Latest(h), n);
    }
  }

  /** One transaction on one contact's rows: upsert, then delete what the query does not keep. */
  method Record(rows: Table, path: PathId, timestamp: int, limit: nat) returns (t: Table)
    ensures t == Prune(Upsert(rows, Observation(path, timestamp)), limit)
  {
    t := rows;
    if path in t {
      t := t[path := Stats(t[path].firstSeen, Max(t[path].lastSeen, timestamp), t[path].heard + 1)];
    } else {
      t := t[path := Stats(timestamp, timestamp, 1)];
    }
    t := Prune(t, limit);
  }

  lemma ReplaySnoc(h: seq<(Observation, nat)>, o: Observation, limit: nat)
    ensures Replay(h + [(o, limit)]) == Prune(Upsert(Replay(h), o), limit)
  {
    assert (h + [(o, limit)])[..|h|] == h;
  }

  function Replay(h: seq<(Observation, nat)>): Table {
    if h == [] then map[] else Prune(Upsert(Replay(h[..|h| - 1]), h[|h| - 1].0), h[|h| - 1].1)
  }

  lemma {:induction false} ReplayIsRun(h: seq<Observation>, n: nat)
    ensures Replay(seq(|h|, i requires 0 <= i < |h| => (h[i], n))) == Run(h, n)
  {
    if h != [] {
      var before := h[..|h| - 1];
      ReplayIsRun(before, n);
      assert seq(|h|, i requires 0 <= i < |h| => (h[i], n))[..|h| - 1] ==
             seq(|before|, i requires 0 <= i < |before| => (before[i], n));
    }
  }
}
