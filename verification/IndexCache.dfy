/** The per-channel index with lazily opened databases and idle eviction
(pkg/recorder/index_sqlite.go), against one plain map from channel to rows.

A table maps recording ids to entries; a query is a function of the channel's table, so `Read` returns
the table itself. Each operation reads the clock once.
*/
module IndexCache {
  import opened Wrappers
  import opened Recording

  type Channel = string
  type Table = map<string, Entry>

  const MAX_IDLE: Time := 600 * SECOND
  const EVICTION_THRESHOLD := 100

  /** `disk` holds the database files; `dbs` the open ones. */
  datatype Index = Index(disk: map<Channel, Table>, dbs: set<Channel>, lastAccess: map<Channel, Time>) {
    /** Whatever is open or remembered has a file. */
    predicate Wf() { dbs <= disk.Keys && lastAccess.Keys <= disk.Keys }
  }

  const EMPTY := Index(map[], {}, map[])

  function Rows(m: map<Channel, Table>, ch: Channel): Table {
    if ch in m then m[ch] else map[]
  }

  // ---------------------------------------------------------------- operations

  function Stale(ix: Index, now: Time): set<Channel> {
    set ch | ch in ix.lastAccess && ix.lastAccess[ch] < now - MAX_IDLE
  }

  function EvictIdle(ix: Index, now: Time): (r: Index) {
    ix.(dbs := ix.dbs - Stale(ix, now), lastAccess := ix.lastAccess - Stale(ix, now))
  }

  /** Eviction after some of the channels have been looked at. */
  function EvictSome(ix: Index, chs: set<Channel>, cutoff: Time): Index {
    var gone := set ch | ch in chs && ch in ix.lastAccess && ix.lastAccess[ch] < cutoff;
    ix.(dbs := ix.dbs - gone, lastAccess := ix.lastAccess - gone)
  }

  lemma EvictStep(ix: Index, chs: set<Channel>, ch: Channel, cutoff: Time)
    requires ch in ix.lastAccess && ch !in chs
    ensures var e := EvictSome(ix, chs, cutoff);
            && ch in e.lastAccess
            && EvictSome(ix, chs + {ch}, cutoff)
               == if e.lastAccess[ch] < cutoff then e.(dbs := e.dbs - {ch}, lastAccess := e.lastAccess - {ch}) else e
  {}

  lemma EvictEnds(ix: Index, now: Time)
    ensures EvictSome(ix, {}, now - MAX_IDLE) == ix
    ensures EvictSome(ix, ix.lastAccess.Keys, now - MAX_IDLE) == EvictIdle(ix, now)
  {
    assert ix.dbs - {} == ix.dbs && ix.lastAccess - {} == ix.lastAccess;
    assert Stale(ix, now) == set ch | ch in ix.lastAccess.Keys && ch in ix.lastAccess && ix.lastAccess[ch] < now - MAX_IDLE;
  }

  function GetDB(ix: Index, ch: Channel, now: Time): (r: Index)
    requires ix.Wf()
    ensures r.Wf() && ch in r.dbs && ch in r.lastAccess && r.lastAccess[ch] == now
  {
    if ch in ix.dbs then ix.(lastAccess := ix.lastAccess[ch := now])
    else
      var e := if |ix.dbs| >= EVICTION_THRESHOLD then EvictIdle(ix, now) else ix;
      Index(e.disk[ch := Rows(e.disk, ch)], e.dbs + {ch}, e.lastAccess[ch := now])
  }

  function MarkDeleted(t: Table, id: string): Table {
    if id in t then t[id := t[id].(status := Deleted)] else t
  }

  function SealTable(t: Table): (r: Table)
    ensures r.Keys == t.Keys
  {
    map id | id in t :: if t[id].status.InProgress? then t[id].(status := Interrupted) else t[id]
  }

  /** UPDATE ... WHERE id = ? on the databases that are open. */
  function DeleteIn(m: map<Channel, Table>, chs: set<Channel>, id: string): (r: map<Channel, Table>)
    ensures r.Keys == m.Keys
  {
    map ch | ch in m :: if ch in chs then MarkDeleted(m[ch], id) else m[ch]
  }

  function SealAll(m: map<Channel, Table>): (r: map<Channel, Table>)
    ensures r.Keys == m.Keys
  {
    map ch | ch in m :: SealTable(m[ch])
  }

  /** Sealing after some of the channels have been visited. */
  function SealSome(m: map<Channel, Table>, done: set<Channel>): (r: map<Channel, Table>)
    ensures r.Keys == m.Keys
  {
    map ch | ch in m :: if ch in done then SealTable(m[ch]) else m[ch]
  }

  lemma SealOneMore(m: map<Channel, Table>, done: set<Channel>, ch: Channel)
    requires ch in m && ch !in done
    ensures SealSome(m, done)[ch] == m[ch]
    ensures SealSome(m, done)[ch := SealTable(m[ch])] == SealSome(m, done + {ch})
  {
    hide SealTable;
  }

  lemma SealNone(m: map<Channel, Table>)
    ensures SealSome(m, {}) == m
  {}

  lemma SealDone(m: map<Channel, Table>, ix: Index, now: Time)
    requires ix.Wf() && ix.disk == SealSome(m, m.Keys)
    requires forall ch :: ch in m ==> FreshlyOpen(ix, ch, now)
    ensures ix == Index(SealAll(m), m.Keys, map ch | ch in m :: now)
  {
    assert ix.disk == SealAll(m);
    assert ix.dbs == m.Keys;
    assert ix.lastAccess == map ch | ch in m :: now;
  }

  predicate FreshlyOpen(ix: Index, ch: Channel, now: Time) {
    ch in ix.dbs && ch in ix.lastAccess && ix.lastAccess[ch] == now
  }

  /** Opening another channel evicts nothing that was accessed at the same time. */
  lemma GetDBKeeps(ix: Index, ch: Channel, now: Time)
    requires ix.Wf()
    ensures FreshlyOpen(GetDB(ix, ch, now), ch, now)
    ensures forall c :: FreshlyOpen(ix, c, now) ==> FreshlyOpen(GetDB(ix, ch, now), c, now)
    ensures ch in ix.disk ==> GetDB(ix, ch, now).disk == ix.disk
  {
    assert forall c :: FreshlyOpen(ix, c, now) ==> c !in Stale(ix, now);
    if ch in ix.disk { assert ix.disk[ch := ix.disk[ch]] == ix.disk; }
  }

  datatype Op =
    | Insert(ch: Channel, e: Entry)
    | Read(ch: Channel)
    | Delete(id: string)
    | Seal
    | Close

  function Do(ix: Index, op: Op, now: Time): (r: (Index, Option<Table>))
    requires ix.Wf()
    ensures r.0.Wf()
  {
    match op
    case Insert(ch, e) =>
      var g := GetDB(ix, ch, now);
      (g.(disk := g.disk[ch := g.disk[ch][e.id := e]]), None)
    case Read(ch) =>
      var g := GetDB(ix, ch, now);
      (g, Some(g.disk[ch]))
    case Delete(id) => (ix.(disk := DeleteIn(ix.disk, ix.dbs, id)), None)
    case Seal => (Index(SealAll(ix.disk), ix.disk.Keys, map ch | ch in ix.disk :: now), None)
    case Close => (ix.(dbs := {}), None)
  }

  // ---------------------------------------------------------------- the index as a class

  class SqliteIndex {
    var disk: map<Channel, Table>
    var dbs: set<Channel>
    var lastAccess: map<Channel, Time>

    ghost function Model(): Index
      reads this
    {
      Index(disk, dbs, lastAccess)
    }

    constructor ()
      ensures Model() == EMPTY
    {
      disk, dbs, lastAccess := map[], {}, map[];
    }

    method EvictIdleLocked(now: Time)
      modifies this`dbs, this`lastAccess
      ensures Model() == EvictIdle(old(Model()), now)
    {
      var cutoff := now - MAX_IDLE;
      var todo := lastAccess.Keys;
      ghost var ix, done := Model(), {};
      EvictEnds(ix, now);
      hide EvictSome, EvictIdle;
      while todo != {}
        invariant done + todo == ix.lastAccess.Keys && done !! todo
        invariant Model() == EvictSome(ix, done, cutoff)
        decreases |todo|
      {
        var ch :| ch in todo;
        EvictStep(ix, done, ch, cutoff);
        if lastAccess[ch] < cutoff {
          dbs := dbs - {ch};
          lastAccess := lastAccess - {ch};
        }
        todo, done := todo - {ch}, done + {ch};
      }
      assert done == ix.lastAccess.Keys;
    }

    method OpenDB(ch: Channel, now: Time)
      requires Model().Wf()
      modifies this
      ensures Model() == GetDB(old(Model()), ch, now)
    {
      if ch in dbs {
        lastAccess := lastAccess[ch := now];
        return;
      }
      if |dbs| >= EVICTION_THRESHOLD {
        EvictIdleLocked(now);
      }
      hide EvictIdle;
      disk := disk[ch := Rows(disk, ch)];  // opening creates the file when it is missing
      dbs := dbs + {ch};
      lastAccess := lastAccess[ch := now];
    }

    method InsertEntry(ch: Channel, e: Entry, now: Time)
      requires Model().Wf()
      modifies this
      ensures Model() == Do(old(Model()), Insert(ch, e), now).0
    {
      OpenDB(ch, now);
      disk := disk[ch := disk[ch][e.id := e]];
    }

    method QueryTable(ch: Channel, now: Time) returns (t: Table)
      requires Model().Wf()
      modifies this
      ensures (Model(), Some(t)) == Do(old(Model()), Read(ch), now)
    {
      OpenDB(ch, now);
      t := disk[ch];
    }

    /** Tries the open databases in no particular order and stops at the first that has the id: at most
        one row is marked, and one is if an open database has it. */
    method DeleteEntry(id: string, ghost now: Time)
      requires Model().Wf()
      modifies this`disk
      ensures (forall ch :: ch in dbs ==> id !in old(disk)[ch]) ==> disk == old(disk)
      ensures (exists ch :: ch in dbs && id in old(disk)[ch]) ==>
                exists ch :: ch in dbs && id in old(disk)[ch] && disk == old(disk)[ch := MarkDeleted(old(disk)[ch], id)]
      ensures UniqueIds(old(disk)) ==> Model() == Do(old(Model()), Delete(id), now).0
    {
      var snapshot := dbs;
      while snapshot != {}
        invariant snapshot <= dbs && disk == old(disk)
        invariant forall ch :: ch in dbs - snapshot ==> id !in disk[ch]
        decreases |snapshot|
      {
        var ch :| ch in snapshot;
        if id in disk[ch] {
          MarkedAlone(disk, dbs, id, ch);
          disk := disk[ch := MarkDeleted(disk[ch], id)];
          return;
        }
        snapshot := snapshot - {ch};
      }
      assert disk == DeleteIn(disk, dbs, id);
    }

    /** Visits every channel that has a database file, open or not. */
    method SealInterrupted(now: Time)
      requires Model().Wf()
      modifies this
      ensures Model() == Do(old(Model()), Seal, now).0
    {
      ghost var m := disk;
      var todo := disk.Keys;
      ghost var done: set<Channel> := {};
      SealNone(disk);
      hide GetDB, SealTable, EvictIdle, SealSome, SealAll, FreshlyOpen;
      while todo != {}
        invariant done + todo == m.Keys && done !! todo
        invariant Model().Wf() && disk == SealSome(m, done)
        invariant forall ch :: ch in done ==> FreshlyOpen(Model(), ch, now)
        decreases |todo|
      {
        var ch :| ch in todo;
        SealOneDatabase(ch, now, m, done);
        todo, done := todo - {ch}, done + {ch};
      }
      assert done == m.Keys;
      SealDone(m, Model(), now);
    }

    method SealOneDatabase(ch: Channel, now: Time, ghost m: map<Channel, Table>, ghost done: set<Channel>)
      requires Model().Wf() && disk == SealSome(m, done) && ch in m && ch !in done
      modifies this
      ensures Model().Wf() && disk == SealSome(m, done + {ch}) && FreshlyOpen(Model(), ch, now)
      ensures forall c :: FreshlyOpen(old(Model()), c, now) ==> FreshlyOpen(Model(), c, now)
    {
      GetDBKeeps(Model(), ch, now);
      hide GetDB, SealTable, SealSome;
      OpenDB(ch, now);
      SealOneMore(m, done, ch);
      disk := disk[ch := SealTable(disk[ch])];
    }

    method CloseAll()
      requires Model().Wf()
      modifies this`dbs
      ensures Model() == Do(old(Model()), Close, 0).0
    {
      while dbs != {}
        invariant dbs <= old(dbs)
        decreases |dbs|
      {
        var ch :| ch in dbs;
        dbs := dbs - {ch};
      }
    }
  }

  lemma MarkedAlone(m: map<Channel, Table>, dbs: set<Channel>, id: string, ch: Channel)
    requires ch in m && ch in dbs && id in m[ch]
    ensures UniqueIds(m) ==> m[ch := MarkDeleted(m[ch], id)] == DeleteIn(m, dbs, id)
  {}

  // ---------------------------------------------------------------- the plain map

  ghost predicate UniqueIds(m: map<Channel, Table>) {
    forall a, b :: a in m && b in m && a != b ==> m[a].Keys !! m[b].Keys
  }

  /** The reference: one map, when each channel was last touched since the last Close, and the clock. */
  datatype Plain = Plain(m: map<Channel, Table>, touched: map<Channel, Time>, clock: Time)

  /** An access to a channel creates it when it is new. */
  function Touch(p: Plain, ch: Channel, now: Time): Plain {
    Plain(p.m[ch := Rows(p.m, ch)], p.touched[ch := now], now)
  }

  function PlainDo(p: Plain, op: Op, now: Time): (r: (Plain, Option<Table>)) {
    match op
    case Insert(ch, e) =>
      (Plain(p.m[ch := Rows(p.m, ch)[e.id := e]], p.touched[ch := now], now), None)
    case Read(ch) => (Touch(p, ch, now), Some(Rows(p.m, ch)))
    case Delete(id) => (Plain(DeleteIn(p.m, p.m.Keys, id), p.touched, now), None)
    case Seal => (Plain(SealAll(p.m), map ch | ch in p.m :: now, now), None)
    case Close => (Plain(p.m, map[], now), None)
  }

  /** What the history has to respect: the clock does not run back, ids are globally unique, and a
      Delete comes within the idle limit of the last access to the channel, with no Close since. */
  ghost predicate Allowed(p: Plain, op: Op, now: Time) {
    && now >= p.clock
    && (op.Insert? ==> forall ch :: ch in p.m && op.e.id in p.m[ch] ==> ch == op.ch)
    && (op.Delete? ==> forall ch :: ch in p.m && op.id in p.m[ch] ==>
          ch in p.touched && now - p.touched[ch] <= MAX_IDLE)
  }

  type Timed = (Op, Time)

  ghost predicate AllowedHistory(p: Plain, ops: seq<Timed>)
    decreases |ops|
  {
    ops == [] || (Allowed(p, ops[0].0, ops[0].1) && AllowedHistory(PlainDo(p, ops[0].0, ops[0].1).0, ops[1..]))
  }

  function Results(ix: Index, ops: seq<Timed>): (r: seq<Option<Table>>)
    requires ix.Wf()
    decreases |ops|
  {
    if ops == [] then []
    else
      var (next, out) := Do(ix, ops[0].0, ops[0].1);
      [out] + Results(next, ops[1..])
  }

  function PlainResults(p: Plain, ops: seq<Timed>): (r: seq<Option<Table>>)
    decreases |ops|
  {
    if ops == [] then []
    else
      var (next, out) := PlainDo(p, ops[0].0, ops[0].1);
      [out] + PlainResults(next, ops[1..])
  }

  /** A recently touched channel is open, because eviction only takes what has been idle too long. */
  ghost predicate StillOpen(ix: Index, p: Plain, ch: Channel)
    requires ch in p.touched
  {
    p.clock - p.touched[ch] <= MAX_IDLE ==> ch in ix.dbs && ch in ix.lastAccess && ix.lastAccess[ch] == p.touched[ch]
  }

  ghost predicate Simulates(ix: Index, p: Plain) {
    && ix.Wf() && ix.disk == p.m && UniqueIds(p.m)
    && p.touched.Keys <= p.m.Keys
    && (forall ch :: ch in ix.lastAccess ==> ix.lastAccess[ch] <= p.clock)
    && (forall ch :: ch in p.touched ==> p.touched[ch] <= p.clock && StillOpen(ix, p, ch))
  }

  lemma StaysOpen(ix: Index, p: Plain, ch: Channel, now: Time, c: Channel)
    requires ix.Wf() && now >= p.clock && (c == ch || (c in p.touched && StillOpen(ix, p, c)))
    ensures StillOpen(GetDB(ix, ch, now), Touch(p, ch, now), c)
  {
    if c != ch && now - p.touched[c] <= MAX_IDLE { assert c !in Stale(ix, now); }
  }

  lemma AccessTimes(ix: Index, ch: Channel, now: Time, clock: Time)
    requires ix.Wf() && now >= clock && forall c :: c in ix.lastAccess ==> ix.lastAccess[c] <= clock
    ensures forall c :: c in GetDB(ix, ch, now).lastAccess ==> GetDB(ix, ch, now).lastAccess[c] <= now
  {}

  lemma GetDBDisk(ix: Index, ch: Channel, now: Time)
    requires ix.Wf()
    ensures GetDB(ix, ch, now).disk == ix.disk[ch := Rows(ix.disk, ch)]
  {
    if ch in ix.dbs { assert ix.disk[ch := ix.disk[ch]] == ix.disk; }
  }

  lemma AllStayOpen(ix: Index, p: Plain, ch: Channel, now: Time)
    requires Simulates(ix, p) && now >= p.clock
    ensures var q := Touch(p, ch, now); forall c :: c in q.touched ==> StillOpen(GetDB(ix, ch, now), q, c)
  {
    hide GetDB, StillOpen, UniqueIds, Rows;
    forall c | c in Touch(p, ch, now).touched ensures StillOpen(GetDB(ix, ch, now), Touch(p, ch, now), c) {
      if c != ch { assert StillOpen(ix, p, c); }
      StaysOpen(ix, p, ch, now, c);
    }
  }

  lemma GetDBSimulates(ix: Index, p: Plain, ch: Channel, now: Time)
    requires Simulates(ix, p) && now >= p.clock
    ensures Simulates(GetDB(ix, ch, now), Touch(p, ch, now))
  {
    GetDBDisk(ix, ch, now);
    AccessTimes(ix, ch, now, p.clock);
    TouchKeepsUnique(p.m, ch);
    AllStayOpen(ix, p, ch, now);
    hide GetDB, UniqueIds, StillOpen, Rows;
  }

  lemma InsertSimulates(ix: Index, p: Plain, ch: Channel, e: Entry, now: Time)
    requires Simulates(ix, p) && ch in p.m && FreshlyOpen(ix, ch, now) && now == p.clock
    requires forall c :: c in p.m && e.id in p.m[c] ==> c == ch
    ensures Simulates(ix.(disk := ix.disk[ch := ix.disk[ch][e.id := e]]), p.(m := p.m[ch := p.m[ch][e.id := e]]))
  {
    var d, q := ix.(disk := ix.disk[ch := ix.disk[ch][e.id := e]]), p.(m := p.m[ch := p.m[ch][e.id := e]]);
    forall c | c in q.touched ensures StillOpen(d, q, c) { assert StillOpen(ix, p, c); }
    forall a, b | a in q.m && b in q.m && a != b ensures q.m[a].Keys !! q.m[b].Keys {
      assert p.m[a].Keys !! p.m[b].Keys;
    }
  }

  lemma DeleteSimulates(ix: Index, p: Plain, id: string, now: Time)
    requires Simulates(ix, p) && Allowed(p, Delete(id), now)
    ensures Simulates(Do(ix, Delete(id), now).0, PlainDo(p, Delete(id), now).0)
  {
    forall ch | ch in p.m && id in p.m[ch] ensures ch in ix.dbs { assert StillOpen(ix, p, ch); }
    var a, b := DeleteIn(ix.disk, ix.dbs, id), DeleteIn(p.m, p.m.Keys, id);
    assert a == b;
    KeepsUnique(p.m, b);
    var q := PlainDo(p, Delete(id), now).0;
    forall ch | ch in q.touched ensures StillOpen(Do(ix, Delete(id), now).0, q, ch) { assert StillOpen(ix, p, ch); }
  }

  lemma KeepsUnique(m: map<Channel, Table>, n: map<Channel, Table>)
    requires UniqueIds(m) && n.Keys == m.Keys && forall ch :: ch in m ==> n[ch].Keys == m[ch].Keys
    ensures UniqueIds(n)
  {
    forall a, b | a in n && b in n && a != b ensures n[a].Keys !! n[b].Keys {
      assert m[a].Keys !! m[b].Keys;
    }
  }

  lemma TouchKeepsUnique(m: map<Channel, Table>, ch: Channel)
    requires UniqueIds(m)
    ensures UniqueIds(m[ch := Rows(m, ch)])
  {
    if ch in m { assert m[ch := Rows(m, ch)] == m; }
  }

  lemma InsertStep(ix: Index, p: Plain, ch: Channel, e: Entry, now: Time)
    requires Simulates(ix, p) && Allowed(p, Insert(ch, e), now)
    ensures Simulates(Do(ix, Insert(ch, e), now).0, PlainDo(p, Insert(ch, e), now).0)
  {
    GetDBSimulates(ix, p, ch, now);
    GetDBKeeps(ix, ch, now);
    PlainInsert(p, ch, e, now);
    hide GetDB, Simulates, FreshlyOpen, PlainDo, Allowed, Rows;
    InsertSimulates(GetDB(ix, ch, now), Touch(p, ch, now), ch, e, now);
  }

  /** Inserting into the plain map is opening the channel, then writing the row. */
  lemma PlainInsert(p: Plain, ch: Channel, e: Entry, now: Time)
    requires Allowed(p, Insert(ch, e), now)
    ensures var q := Touch(p, ch, now);
            && (forall c :: c in q.m && e.id in q.m[c] ==> c == ch)
            && PlainDo(p, Insert(ch, e), now).0 == q.(m := q.m[ch := q.m[ch][e.id := e]])
  {
    var m := p.m[ch := Rows(p.m, ch)];
    assert m[ch := m[ch][e.id := e]] == p.m[ch := Rows(p.m, ch)[e.id := e]];
  }

  lemma StepSimulates(ix: Index, p: Plain, op: Op, now: Time)
    requires Simulates(ix, p) && Allowed(p, op, now)
    ensures Do(ix, op, now).1 == PlainDo(p, op, now).1
    ensures Simulates(Do(ix, op, now).0, PlainDo(p, op, now).0)
  {
    hide UniqueIds;
    match op
    case Insert(ch, e) => InsertStep(ix, p, ch, e, now);
    case Read(ch) =>
      GetDBSimulates(ix, p, ch, now);
      hide GetDB;
    case Delete(id) => DeleteSimulates(ix, p, id, now);
    case Seal => SealSimulates(ix, p, now);
    case Close =>
  }

  lemma SealSimulates(ix: Index, p: Plain, now: Time)
    requires Simulates(ix, p) && now >= p.clock
    ensures Simulates(Do(ix, Seal, now).0, PlainDo(p, Seal, now).0)
  {
    KeepsUnique(p.m, SealAll(p.m));
    hide UniqueIds, SealTable;
  }

  /** For every allowed sequential history the cached index answers exactly like the plain map. */
  lemma {:induction false} CacheIsTransparent(ix: Index, p: Plain, ops: seq<Timed>)
    requires Simulates(ix, p) && AllowedHistory(p, ops)
    ensures Results(ix, ops) == PlainResults(p, ops)
    decreases |ops|
  {
    if ops != [] {
      StepSimulates(ix, p, ops[0].0, ops[0].1);
      CacheIsTransparent(Do(ix, ops[0].0, ops[0].1).0, PlainDo(p, ops[0].0, ops[0].1).0, ops[1..]);
    }
  }

  /** The index after a history. */
  function After(ix: Index, ops: seq<Timed>): (r: Index)
    requires ix.Wf()
    decreases |ops|
  {
    if ops == [] then ix else After(Do(ix, ops[0].0, ops[0].1).0, ops[1..])
  }

  /** Open, and accessed at or after the given time. */
  predicate OpenSince(ix: Index, ch: Channel, since: Time) {
    ch in ix.dbs && ch in ix.lastAccess && since <= ix.lastAccess[ch]
  }

  lemma StepKeepsOpen(ix: Index, op: Op, at: Time, ch: Channel, since: Time)
    requires ix.Wf() && OpenSince(ix, ch, since) && !op.Close? && since <= at <= since + MAX_IDLE
    ensures OpenSince(Do(ix, op, at).0, ch, since)
  {
    assert ch !in Stale(ix, at);
  }

  /** Retention queries a channel and then deletes: whatever the index does in between short of a Close,
      with any ids and any other deletes, the Delete reaches the row if it comes within the idle limit of
      the query. */
  lemma {:induction false} DeleteAfterQueryReachesRow(ix: Index, ops: seq<Timed>, ch: Channel, queried: Time, now: Time)
    requires ix.Wf() && OpenSince(ix, ch, queried) && now <= queried + MAX_IDLE
    requires forall o :: o in ops ==> !o.0.Close? && queried <= o.1 <= now
    ensures OpenSince(After(ix, ops), ch, queried)
    decreases |ops|
  {
    if ops != [] {
      assert ops[0] in ops;
      StepKeepsOpen(ix, ops[0].0, ops[0].1, ch, queried);
      hide Do;
      DeleteAfterQueryReachesRow(Do(ix, ops[0].0, ops[0].1).0, ops[1..], ch, queried, now);
    }
  }

  lemma FreshIndexSimulates(now: Time)
    ensures Simulates(EMPTY, Plain(map[], map[], now))
  {}

  /** So for a new index and every allowed history of it. */
  lemma NewIndexIsTransparent(ops: seq<Timed>, now: Time)
    requires AllowedHistory(Plain(map[], map[], now), ops)
    ensures Results(EMPTY, ops) == PlainResults(Plain(map[], map[], now), ops)
  {
    FreshIndexSimulates(now);
    CacheIsTransparent(EMPTY, Plain(map[], map[], now), ops);
  }

  /** Without the timing condition: a Delete takes effect exactly when the row's database is open or the
      row is already marked. */
  lemma DeleteTakesEffectIff(ix: Index, id: string, ch: Channel, now: Time)
    requires ix.Wf() && UniqueIds(ix.disk) && ch in ix.disk && id in ix.disk[ch]
    ensures Do(ix, Delete(id), now).0.disk == DeleteIn(ix.disk, ix.disk.Keys, id)
            <==> ch in ix.dbs || ix.disk[ch][id].status.Deleted?
  {
    var a, b := DeleteIn(ix.disk, ix.dbs, id), DeleteIn(ix.disk, ix.disk.Keys, id);
    if ch in ix.dbs || ix.disk[ch][id].status.Deleted? {
      forall c | c in ix.disk ensures a[c] == b[c] {
        if c == ch && ch !in ix.dbs {
          assert MarkDeleted(ix.disk[ch], id) == ix.disk[ch];
        }
      }
      assert a == b;
    } else {
      assert a[ch][id] != b[ch][id];
    }
  }

  /** Sealing reaches every channel with a database file, evicted and never opened ones included. */
  lemma SealReachesEveryChannel(ix: Index, now: Time, ch: Channel, id: string)
    requires ix.Wf() && ch in ix.disk && id in ix.disk[ch]
    ensures var t := Do(ix, Seal, now).0.disk;
            && ch in t && id in t[ch]
            && t[ch][id].status == (if ix.disk[ch][id].status.InProgress? then Interrupted else ix.disk[ch][id].status)
            && t[ch][id].end == ix.disk[ch][id].end
  {}

  /** What opening a channel evicts: nothing when the channel is open already or fewer than a hundred are,
      and otherwise exactly the channels not accessed for more than ten minutes. */
  lemma EvictedIff(ix: Index, ch: Channel, now: Time, c: Channel)
    requires ix.Wf() && c in ix.dbs && c != ch
    ensures c !in GetDB(ix, ch, now).dbs <==>
            ch !in ix.dbs && |ix.dbs| >= 100 && c in ix.lastAccess && now - ix.lastAccess[c] > 600_000_000_000
    ensures c in GetDB(ix, ch, now).dbs && c in ix.lastAccess ==>
              c in GetDB(ix, ch, now).lastAccess && GetDB(ix, ch, now).lastAccess[c] == ix.lastAccess[c]
  {
    assert c in Stale(ix, now) <==> c in ix.lastAccess && now - ix.lastAccess[c] > MAX_IDLE;
  }

  /** An idle channel really is lost to Delete: with a hundred other channels opened after the idle
      limit, the row of the first one stays undeleted. */
  lemma EvictedChannelMissesDelete(ix: Index, id: string, ch: Channel, other: Channel, now: Time)
    requires ix.Wf() && UniqueIds(ix.disk) && ch in ix.dbs && ch in ix.lastAccess && ch in ix.disk && id in ix.disk[ch]
    requires other !in ix.dbs && |ix.dbs| >= EVICTION_THRESHOLD && now - ix.lastAccess[ch] > MAX_IDLE
    ensures var g := Do(ix, Read(other), now).0;
            ch !in g.dbs && Do(g, Delete(id), now).0.disk[ch] == ix.disk[ch]
  {}
}
