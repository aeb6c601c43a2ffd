/** The segment protocol on top of the real index: the rows are what the per-channel databases hold, and a
Delete reaches a row only if the cache has its database open at that moment
(pkg/recorder/recorder.go, pkg/recorder/index_sqlite.go).

The rest of the state moves as in SegmentLifecycle. Every step reads the clock, which does not run back.
*/
module RecorderStorage {
  import opened Wrappers
  import opened Recording
  import opened IndexCache
  import Life = SegmentLifecycle

  type Id = Life.Id

  datatype State = State(
    rest: Life.State,                       // files and memory; its rows are not used
    ix: Index,
    home: map<Id, Channel>,                 // history: the channel of each segment
    queriedAt: map<Life.Deletion, Time>,    // history: when a pass read the row
    clock: Time)

  const INIT := State(Life.INIT, EMPTY, map[], map[], ZERO_TIME)

  datatype Action =
    | Create(id: Id, path: Life.Path, ch: Channel)
    | InsertMarker(id: Id, ok: bool)
    | Rename(id: Id, final: Life.Path, ok: bool)
    | InsertFinal(id: Id, valid: bool, ok: bool)
    | Query(pass: nat, id: Id)
    | Mark(d: Life.Deletion, ok: bool)
    | Remove(d: Life.Deletion, ok: bool)
    | Crash
    | SealChannel(ch: Channel)
    | Boot
    | ReadOther(ch: Channel)                // playback or another schedule uses the index

  // ---------------------------------------------------------------- rows and tables

  /** What the databases say about the segments. */
  function RowsOf(disk: map<Channel, Table>, home: map<Id, Channel>): (rows: map<Id, Life.Row>) {
    map id | id in home && home[id] in disk && id in disk[home[id]] ::
      Life.Row(disk[home[id]][id].status, disk[home[id]][id].path)
  }

  function Abstract(s: State): Life.State { s.rest.(rows := RowsOf(s.ix.disk, s.home)) }

  /** A row is in the table of its own channel only. */
  ghost predicate Homed(disk: map<Channel, Table>, home: map<Id, Channel>) {
    forall ch, id :: ch in disk && id in disk[ch] ==> id in home && home[id] == ch
  }

  predicate Reached(s: State, id: Id) { id in s.home && s.home[id] in s.ix.dbs }

  // ---------------------------------------------------------------- steps

  /** The step of the protocol an action stands for; the cache decides whether a mark reaches its row. */
  function LifeAction(s: State, a: Action): Option<Life.Action> {
    match a
    case Create(id, path, _) => Some(Life.CreateFile(id, path))
    case InsertMarker(id, ok) => Some(Life.InsertMarker(id, ok))
    case Rename(id, final, ok) => Some(Life.Rename(id, final, ok))
    case InsertFinal(id, valid, ok) => Some(Life.InsertFinal(id, valid, ok))
    case Query(pass, id) => Some(Life.RetentionQuery(pass, id))
    case Mark(d, ok) => Some(Life.MarkDeleted(d, Reached(s, d.id), ok))
    case Remove(d, ok) => Some(Life.RemoveFile(d, ok))
    case Crash => Some(Life.Crash)
    case SealChannel(ch) => Some(Life.Seal(Rows(s.ix.disk, ch).Keys))
    case Boot => Some(Life.Boot)
    case ReadOther(_) => None
  }

  function NewRow(id: Id, path: Life.Path, status: Status, start: Time): Entry {
    Entry(id, start, ZERO_TIME, path, 0, status, false, false)
  }

  /** What the action asks of the index, if anything. */
  function IndexOp(s: State, a: Action, now: Time): Option<Op> {
    match a
    case InsertMarker(id, ok) =>
      if ok && id in s.home && id in s.rest.segments && s.rest.segments[id].Created?
      then Some(Insert(s.home[id], NewRow(id, s.rest.segments[id].path, InProgress, now))) else None
    case InsertFinal(id, valid, ok) =>
      if ok && id in s.home && id in s.rest.segments && s.rest.segments[id].Closing?
      then Some(Insert(s.home[id], NewRow(id, s.rest.segments[id].path, if valid then Complete else Corrupted, now))) else None
    case Query(_, id) => if id in s.home && !s.rest.booting then Some(Read(s.home[id])) else None
    case Mark(d, ok) => if ok && d in s.rest.deletions && d.Queried? then Some(Delete(d.id)) else None
    case ReadOther(ch) => Some(Read(ch))
    case _ => None
  }

  function IndexAfter(s: State, a: Action, now: Time): (ix: Index)
    requires s.ix.Wf()
    ensures ix.Wf()
  {
    match a
    case Crash => Index(s.ix.disk, {}, map[])
    case SealChannel(ch) =>
      if s.rest.booting && ch in s.ix.disk then
        var g := GetDB(s.ix, ch, now);
        g.(disk := g.disk[ch := SealTable(g.disk[ch])])
      else s.ix
    case _ =>
      var op := IndexOp(s, a, now);
      if op.Some? then IndexCache.Do(s.ix, op.value, now).0 else s.ix
  }

  /** The protocol state after the action. */
  function LifeAfter(s: State, a: Action): Life.State {
    var life := LifeAction(s, a);
    if life.Some? then Life.Do(Abstract(s), life.value) else Abstract(s)
  }

  function HomeAfter(s: State, a: Action): map<Id, Channel> {
    if a.Create? && a.id in LifeAfter(s, a).usedIds && a.id !in s.home then s.home[a.id := a.ch] else s.home
  }

  function QueriedAfter(s: State, a: Action, now: Time): map<Life.Deletion, Time> {
    if a.Query? && a.id in Abstract(s).rows
    then s.queriedAt[Life.Queried(a.pass, a.id, Abstract(s).rows[a.id].path) := now] else s.queriedAt
  }

  function Do(s: State, a: Action, now: Time): (t: State)
    requires s.ix.Wf()
    ensures t.ix.Wf()
  {
    if now < s.clock then s
    else State(LifeAfter(s, a).(rows := map[]), IndexAfter(s, a, now), HomeAfter(s, a), QueriedAfter(s, a, now), now)
  }

  type Timed = (Action, Time)

  function Run(s: State, acts: seq<Timed>): (t: State)
    requires s.ix.Wf()
    decreases |acts|
  {
    if acts == [] then s else Run(Do(s, acts[0].0, acts[0].1), acts[1..])
  }

  /** A pass marks a row within the idle limit of having read it. */
  ghost predicate TimelyStep(s: State, a: Action, now: Time) {
    a.Mark? && a.d in s.rest.deletions && a.d in s.queriedAt ==> now <= s.queriedAt[a.d] + MAX_IDLE
  }

  ghost predicate Timely(s: State, acts: seq<Timed>)
    requires s.ix.Wf()
    decreases |acts|
  {
    acts == [] || (TimelyStep(s, acts[0].0, acts[0].1) && Timely(Do(s, acts[0].0, acts[0].1), acts[1..]))
  }

  // ---------------------------------------------------------------- invariant

  /** The database of a row that a pass is about to mark is open, unless the pass took too long. */
  ghost predicate PassOk(s: State, d: Life.Deletion) {
    && d in s.queriedAt && s.queriedAt[d] <= s.clock && d.id in s.home
    && (s.clock <= s.queriedAt[d] + MAX_IDLE ==> OpenSince(s.ix, s.home[d.id], s.queriedAt[d]))
  }

  ghost predicate Inv(s: State) {
    && s.ix.Wf() && Homed(s.ix.disk, s.home) && s.home.Keys == s.rest.usedIds
    && s.rest.rows == map[]
    && (s.rest.booting ==> s.rest.deletions == {})
    && (forall d :: d in s.rest.deletions && d.Queried? ==> PassOk(s, d))
    && Life.Inv(Abstract(s))
  }

  // ---------------------------------------------------------------- tables under index operations

  lemma RowsAfterOpen(disk: map<Channel, Table>, home: map<Id, Channel>, ch: Channel)
    requires Homed(disk, home)
    ensures RowsOf(disk[ch := Rows(disk, ch)], home) == RowsOf(disk, home)
    ensures Homed(disk[ch := Rows(disk, ch)], home)
  {
    var d := disk[ch := Rows(disk, ch)];
    assert forall c, id :: (c in d && id in d[c]) <==> (c in disk && id in disk[c]);
  }

  lemma RowsAfterInsert(disk: map<Channel, Table>, home: map<Id, Channel>, id: Id, e: Entry)
    requires Homed(disk, home) && id in home && home[id] in disk
    ensures var d := disk[home[id] := disk[home[id]][id := e]];
            RowsOf(d, home) == RowsOf(disk, home)[id := Life.Row(e.status, e.path)] && Homed(d, home)
  {
    var ch := home[id];
    var d := disk[ch := disk[ch][id := e]];
    assert Homed(d, home);
    TableChange(disk, d, home, ch);
    assert forall i :: i in home && home[i] == ch && i != id ==> (i in d[ch] <==> i in disk[ch]) && (i in d[ch] ==> d[ch][i] == disk[ch][i]);
    hide Homed;
    var r, rows := RowsOf(d, home), RowsOf(disk, home)[id := Life.Row(e.status, e.path)];
    assert r.Keys == rows.Keys;
    assert forall i :: i in r ==> r[i] == rows[i];
  }

  /** Changing one channel's table leaves the rows of the others alone. */
  lemma TableChange(disk: map<Channel, Table>, d: map<Channel, Table>, home: map<Id, Channel>, ch: Channel)
    requires d.Keys == disk.Keys && forall c :: c in disk && c != ch ==> d[c] == disk[c]
    ensures forall i :: i in home && home[i] != ch ==> (i in RowsOf(d, home) <==> i in RowsOf(disk, home))
    ensures forall i :: i in RowsOf(d, home) && i in RowsOf(disk, home) && home[i] != ch ==> RowsOf(d, home)[i] == RowsOf(disk, home)[i]
  {}

  lemma RowsAfterDelete(disk: map<Channel, Table>, home: map<Id, Channel>, open: set<Channel>, id: Id)
    requires Homed(disk, home)
    ensures var d, rows := DeleteIn(disk, open, id), RowsOf(disk, home);
            && Homed(d, home)
            && RowsOf(d, home) == if id in rows && home[id] in open then rows[id := rows[id].(status := Deleted)] else rows
  {}

  lemma RowsAfterSeal(disk: map<Channel, Table>, home: map<Id, Channel>, ch: Channel)
    requires Homed(disk, home) && ch in disk
    ensures var d, rows := disk[ch := SealTable(disk[ch])], RowsOf(disk, home);
            && Homed(d, home)
            && RowsOf(d, home) == map id | id in rows :: if id in disk[ch] then Life.SealRow(rows[id]) else rows[id]
  {
    var d, rows := disk[ch := SealTable(disk[ch])], RowsOf(disk, home);
    var r := RowsOf(d, home);
    assert Homed(d, home);
    hide Life.SealRow, SealTable;
    TableChange(disk, d, home, ch);
    forall id | id in rows || id in r
      ensures id in rows && id in r && r[id] == if id in disk[ch] then Life.SealRow(rows[id]) else rows[id]
    {
      SealedRow(disk[ch], id);
    }
  }

  lemma SealedRow(t: Table, id: Id)
    ensures id in t ==> Life.Row(SealTable(t)[id].status, SealTable(t)[id].path) == Life.SealRow(Life.Row(t[id].status, t[id].path))
  {}

  lemma RowsAfterCreate(disk: map<Channel, Table>, home: map<Id, Channel>, id: Id, ch: Channel)
    requires Homed(disk, home) && id !in home
    ensures RowsOf(disk, home[id := ch]) == RowsOf(disk, home) && Homed(disk, home[id := ch])
  {}

  // ---------------------------------------------------------------- one step refines one step

  ghost predicate RowsAgree(s: State, a: Action, now: Time)
    requires s.ix.Wf()
  {
    var disk, home := IndexAfter(s, a, now).disk, HomeAfter(s, a);
    RowsOf(disk, home) == LifeAfter(s, a).rows && Homed(disk, home)
  }

  /** What agreement of the rows needs of the state. */
  ghost predicate Sound(s: State) {
    && s.ix.Wf() && Homed(s.ix.disk, s.home) && s.home.Keys == s.rest.usedIds
    && s.rest.segments.Keys <= s.home.Keys
  }

  lemma InvIsSound(s: State)
    requires Inv(s)
    ensures Sound(s)
  {
    forall id | id in s.rest.segments ensures id in s.home { assert Life.SegmentOk(Abstract(s), id); }
    hide Life.Inv, Homed, RowsOf;
  }

  lemma InsertAgrees(s: State, a: Action, now: Time)
    requires Sound(s) && (a.InsertMarker? || a.InsertFinal?)
    ensures RowsAgree(s, a, now)
  {
    hide RowsOf, Homed, GetDB;
    var op := IndexOp(s, a, now);
    if op.Some? {
      var ch, id := s.home[a.id], a.id;
      InsertDisk(s.ix, ch, op.value.e, now);
      RowsAfterOpen(s.ix.disk, s.home, ch);
      RowsAfterInsert(s.ix.disk[ch := Rows(s.ix.disk, ch)], s.home, id, op.value.e);
      hide IndexCache.Do;
    }
  }

  lemma InsertDisk(ix: Index, ch: Channel, e: Entry, now: Time)
    requires ix.Wf()
    ensures var d := ix.disk[ch := Rows(ix.disk, ch)];
            IndexCache.Do(ix, Insert(ch, e), now).0.disk == d[ch := d[ch][e.id := e]]
  {
    GetDBDisk(ix, ch, now);
    hide GetDB, Rows;
  }

  lemma ReadAgrees(s: State, a: Action, now: Time)
    requires Sound(s) && (a.Query? || a.ReadOther?)
    ensures RowsAgree(s, a, now)
  {
    hide RowsOf, Homed, GetDB, Rows;
    var op := IndexOp(s, a, now);
    if op.Some? {
      GetDBDisk(s.ix, op.value.ch, now);
      RowsAfterOpen(s.ix.disk, s.home, op.value.ch);
    }
  }

  lemma MarkAgrees(s: State, a: Action, now: Time)
    requires Sound(s) && a.Mark?
    ensures RowsAgree(s, a, now)
  {
    hide RowsOf, Homed, DeleteIn;
    RowsAfterDelete(s.ix.disk, s.home, s.ix.dbs, a.d.id);
    RowsHomed(s.ix.disk, s.home, a.d.id);
  }

  lemma RowsHomed(disk: map<Channel, Table>, home: map<Id, Channel>, id: Id)
    ensures id in RowsOf(disk, home) ==> id in home
  {}

  lemma SealAgrees(s: State, a: Action, now: Time)
    requires Sound(s) && a.SealChannel?
    ensures RowsAgree(s, a, now)
  {
    hide RowsOf, Homed, GetDB, SealTable, Life.SealRow;
    var rows := Abstract(s).rows;
    if s.rest.booting && a.ch in s.ix.disk {
      GetDBDisk(s.ix, a.ch, now);
      assert s.ix.disk[a.ch := s.ix.disk[a.ch]] == s.ix.disk;
      RowsAfterSeal(s.ix.disk, s.home, a.ch);
    } else {
      assert LifeAfter(s, a).rows == rows;
    }
  }

  lemma CreateAgrees(s: State, a: Action, now: Time)
    requires Sound(s) && a.Create?
    ensures RowsAgree(s, a, now)
  {
    hide RowsOf, Homed;
    if a.id !in s.home { RowsAfterCreate(s.ix.disk, s.home, a.id, a.ch); }
  }

  lemma OtherAgrees(s: State, a: Action, now: Time)
    requires Sound(s) && (a.Rename? || a.Remove? || a.Crash? || a.Boot?)
    ensures RowsAgree(s, a, now)
  {
    hide RowsOf, Homed;
    assert HomeAfter(s, a) == s.home && IndexAfter(s, a, now).disk == s.ix.disk;
    hide HomeAfter, IndexAfter;
  }

  lemma StepAgrees(s: State, a: Action, now: Time)
    requires Sound(s)
    ensures RowsAgree(s, a, now)
  {
    hide *;
    match a
    case InsertMarker(_, _) => InsertAgrees(s, a, now);
    case InsertFinal(_, _, _) => InsertAgrees(s, a, now);
    case Query(_, _) => ReadAgrees(s, a, now);
    case ReadOther(_) => ReadAgrees(s, a, now);
    case Mark(_, _) => MarkAgrees(s, a, now);
    case SealChannel(_) => SealAgrees(s, a, now);
    case Create(_, _, _) => CreateAgrees(s, a, now);
    case _ => OtherAgrees(s, a, now);
  }

  // ---------------------------------------------------------------- the cache keeps what a pass needs

  lemma IndexKeepsOpen(s: State, a: Action, now: Time, ch: Channel, since: Time)
    requires s.ix.Wf() && OpenSince(s.ix, ch, since) && since <= now <= since + MAX_IDLE
    requires !a.Crash? && !s.rest.booting
    ensures OpenSince(IndexAfter(s, a, now), ch, since)
  {
    var op := IndexOp(s, a, now);
    if op.Some? { StepKeepsOpen(s.ix, op.value, now, ch, since); }
    hide IndexCache.Do;
  }

  lemma QueryOpens(s: State, a: Action, now: Time)
    requires s.ix.Wf() && a.Query? && a.id in s.home && !s.rest.booting
    ensures OpenSince(IndexAfter(s, a, now), s.home[a.id], now)
  {}

  /** Deletions in flight after a step. */
  lemma DeletionsAfter(s: State, a: Action, d: Life.Deletion)
    requires d in LifeAfter(s, a).deletions && d.Queried?
    ensures !a.Crash?
    ensures d in s.rest.deletions ||
            (a.Query? && !s.rest.booting && a.id in Abstract(s).rows && d == Life.Queried(a.pass, a.id, Abstract(s).rows[a.id].path))
  {
    hide RowsOf;
  }

  lemma HomeKept(s: State, a: Action, id: Id)
    ensures id in s.home ==> id in HomeAfter(s, a) && HomeAfter(s, a)[id] == s.home[id]
  {}

  lemma PassStays(s: State, a: Action, now: Time, d: Life.Deletion)
    requires Inv(s) && now >= s.clock && d in Do(s, a, now).rest.deletions && d.Queried?
    ensures PassOk(Do(s, a, now), d)
  {
    DeletionsAfter(s, a, d);
    hide Life.Inv, Life.Do, RowsOf, IndexAfter, Homed, LifeAfter;
    HomeKept(s, a, d.id);
    hide HomeAfter;
    if a.Query? && a.id in Abstract(s).rows && d == Life.Queried(a.pass, a.id, Abstract(s).rows[a.id].path) && !s.rest.booting {
      RowsHomed(s.ix.disk, s.home, a.id);
      QueryOpens(s, a, now);
    } else {
      assert PassOk(s, d);
      if now <= s.queriedAt[d] + MAX_IDLE { IndexKeepsOpen(s, a, now, s.home[d.id], s.queriedAt[d]); }
    }
  }

  // ---------------------------------------------------------------- the assumption of the protocol, derived

  /** The protocol's action with the database open. */
  function OpenAction(s: State, a: Action): Option<Life.Action> {
    if a.Mark? then Some(Life.MarkDeleted(a.d, true, a.ok)) else LifeAction(s, a)
  }

  /** A timely mark finds its database open. */
  lemma MarkReaches(s: State, a: Action, now: Time)
    requires Inv(s) && now >= s.clock && TimelyStep(s, a, now) && a.Mark? && a.d in s.rest.deletions && a.d.Queried?
    ensures Reached(s, a.d.id)
  {
    assert PassOk(s, a.d);
  }

  /** One step of the storage is one step of the protocol with the database open, and keeps everything. */
  lemma StepRefines(s: State, a: Action, now: Time)
    requires Inv(s) && TimelyStep(s, a, now)
    ensures var t, life := Do(s, a, now), OpenAction(s, a);
            && Inv(t)
            && Abstract(t) == if now >= s.clock && life.Some? then Life.Do(Abstract(s), life.value) else Abstract(s)
  {
    hide Life.Do, Life.Inv, RowsOf, IndexAfter, Homed, PassOk, HomeAfter, QueriedAfter, LifeAfter, TimelyStep, LifeAction;
    if now >= s.clock {
      var t, life := Do(s, a, now), OpenAction(s, a);
      InvIsSound(s);
      StepAgrees(s, a, now);
      assert Abstract(t) == LifeAfter(s, a);
      forall d | d in t.rest.deletions && d.Queried? ensures PassOk(t, d) { PassStays(s, a, now, d); }
      SameLife(s, a, now);
      if life.Some? {
        OpenIsOpen(s, a);
        Life.StepKeepsInv(Abstract(s), life.value);
      }
      RestStays(s, a);
    }
  }

  lemma OpenIsOpen(s: State, a: Action)
    ensures OpenAction(s, a).Some? && OpenAction(s, a).value.MarkDeleted? ==> OpenAction(s, a).value.open
  {}

  /** Marking is the same whether we say the database is open or the cache does. */
  lemma SameLife(s: State, a: Action, now: Time)
    requires Inv(s) && now >= s.clock && TimelyStep(s, a, now)
    ensures var life := OpenAction(s, a);
            LifeAfter(s, a) == if life.Some? then Life.Do(Abstract(s), life.value) else Abstract(s)
  {
    if a.Mark? && a.d in s.rest.deletions && a.d.Queried? { MarkReaches(s, a, now); }
    hide Inv, RowsOf;
  }

  lemma RestStays(s: State, a: Action)
    requires (s.rest.booting ==> s.rest.deletions == {}) && s.home.Keys == s.rest.usedIds
    ensures var after := LifeAfter(s, a);
            (after.booting ==> after.deletions == {}) && HomeAfter(s, a).Keys == after.usedIds
  {
    hide RowsOf;
  }

  // ---------------------------------------------------------------- runs

  /** Every timely run of the storage is a run of the protocol in which each Delete finds its database
      open. */
  lemma {:induction false} StorageRefinesProtocol(s: State, acts: seq<Timed>) returns (life: seq<Life.Action>)
    requires Inv(s) && Timely(s, acts)
    ensures Inv(Run(s, acts)) && Life.DbOpenAtDelete(life)
    ensures Abstract(Run(s, acts)) == Life.Run(Abstract(s), life)
    decreases |acts|
  {
    assert s.ix.Wf();
    hide Inv, Life.Do, TimelyStep, Do;
    if acts == [] {
      life := [];
    } else {
      var a, now := acts[0].0, acts[0].1;
      StepRefines(s, a, now);
      var rest := StorageRefinesProtocol(Do(s, a, now), acts[1..]);
      var first := OpenAction(s, a);
      OpenIsOpen(s, a);
      hide OpenAction;
      if now >= s.clock && first.Some? {
        life := [first.value] + rest;
        assert life[1..] == rest;
      } else {
        life := rest;
      }
    }
  }

  lemma InitInv()
    ensures Inv(INIT) && Abstract(INIT) == Life.INIT
  {}

  /** With nothing assumed about the cache: as long as each pass marks a row within ten minutes of having
      read it, every complete row in every database names a file that exists, and a row offered to
      readers lacks its file exactly when its close broke off between rename and row update. */
  lemma StoredRowsHaveFiles(acts: seq<Timed>, ch: Channel, id: Id)
    requires Timely(INIT, acts)
    requires ch in Run(INIT, acts).ix.disk && id in Run(INIT, acts).ix.disk[ch]
    ensures var s := Run(INIT, acts); var e := s.ix.disk[ch][id];
            && (e.status.Complete? ==> e.path in s.rest.files)
            && (Playable(e.status) ==> (e.path in s.rest.files <==> id !in s.rest.stranded))
  {
    InitInv();
    hide Inv, Run, Timely, Life.Inv, Life.Run;
    var life := StorageRefinesProtocol(INIT, acts);
    var s := Run(INIT, acts);
    StoredRow(s, ch, id);
    Life.OfferedRowsHaveFiles(life, id);
  }

  lemma StoredRow(s: State, ch: Channel, id: Id)
    requires Inv(s) && ch in s.ix.disk && id in s.ix.disk[ch]
    ensures id in Abstract(s).rows && Abstract(s).rows[id] == Life.Row(s.ix.disk[ch][id].status, s.ix.disk[ch][id].path)
  {
    hide Life.Inv;
  }

  // ---------------------------------------------------------------- the protocol's results on the tables

  lemma {:induction false} RunKeepsHome(s: State, acts: seq<Timed>, id: Id)
    requires s.ix.Wf() && id in s.home
    ensures id in Run(s, acts).home && Run(s, acts).home[id] == s.home[id]
    decreases |acts|
  {
    if acts != [] {
      HomeKept(s, acts[0].0, id);
      hide LifeAfter, IndexAfter, HomeAfter, QueriedAfter;
      RunKeepsHome(Do(s, acts[0].0, acts[0].1), acts[1..], id);
    }
  }

  lemma TableRow(s: State, id: Id)
    requires id in Abstract(s).rows
    ensures id in s.home && s.home[id] in s.ix.disk && id in s.ix.disk[s.home[id]]
    ensures var e := s.ix.disk[s.home[id]][id]; Abstract(s).rows[id] == Life.Row(e.status, e.path)
  {}

  /** A row stays in its table through every timely run, and moves as the protocol's row does. */
  lemma StoredRowStays(s: State, acts: seq<Timed>, ch: Channel, id: Id) returns (life: seq<Life.Action>)
    requires Inv(s) && Timely(s, acts) && ch in s.ix.disk && id in s.ix.disk[ch]
    ensures Inv(Run(s, acts)) && Life.DbOpenAtDelete(life) && Abstract(Run(s, acts)) == Life.Run(Abstract(s), life)
    ensures var t := Run(s, acts);
            && ch in t.ix.disk && id in t.ix.disk[ch]
            && id in Abstract(s).rows && Life.RowEvolves(Abstract(s), Abstract(t), id)
            && Abstract(t).rows[id] == Life.Row(t.ix.disk[ch][id].status, t.ix.disk[ch][id].path)
            && Abstract(s).rows[id] == Life.Row(s.ix.disk[ch][id].status, s.ix.disk[ch][id].path)
  {
    assert Life.Inv(Abstract(s));
    life := StorageRefinesProtocol(s, acts);
    StoredRow(s, ch, id);
    TableRow(s, id);
    assert s.home[id] == ch;
    hide Inv, Timely, Run, Life.Inv, Life.Run, Life.DbOpenAtDelete, RowsOf;
    Life.RowsOnlyMoveForward(Abstract(s), life, id);
    TableRow(Run(s, acts), id);
    RunKeepsHome(s, acts, id);
  }

  /** A reader that saw an offered row and its file misses the file later only if retention marked the row
      in between. */
  lemma StoredReaderMissesOnlyDeleted(s: State, acts: seq<Timed>, ch: Channel, id: Id)
    requires Inv(s) && Timely(s, acts) && ch in s.ix.disk && id in s.ix.disk[ch]
    requires Playable(s.ix.disk[ch][id].status) && s.ix.disk[ch][id].path in s.rest.files
    ensures var t := Run(s, acts);
            && ch in t.ix.disk && id in t.ix.disk[ch] && t.ix.disk[ch][id].path == s.ix.disk[ch][id].path
            && (s.ix.disk[ch][id].path !in t.rest.files ==> t.ix.disk[ch][id].status.Deleted?)
  {
    assert Life.Inv(Abstract(s));
    var life := StoredRowStays(s, acts, ch, id);
    hide Inv, Timely, Run, Life.Inv, Life.Run, RowsOf;
    Life.ReaderMissesOnlyDeleted(Abstract(s), life, id);
  }

  /** In every timely run the file of a deleted row is on disk exactly when its removal is in flight or was
      cut off, no other pass removed it, and it was not stranded before. */
  lemma StoredDeletedFileRemainsIff(acts: seq<Timed>, ch: Channel, id: Id)
    requires Timely(INIT, acts) && ch in Run(INIT, acts).ix.disk && id in Run(INIT, acts).ix.disk[ch]
    requires Run(INIT, acts).ix.disk[ch][id].status.Deleted?
    ensures var s := Run(INIT, acts);
            s.ix.disk[ch][id].path in s.rest.files <==>
            (id in Life.MarkedIds(s.rest) || id in s.rest.cutOff) && id !in s.rest.removed && id !in s.rest.stranded
  {
    InitInv();
    hide Inv, Run, Timely, Life.Inv, Life.Run, RowsOf;
    var life := StorageRefinesProtocol(INIT, acts);
    StoredRow(Run(INIT, acts), ch, id);
    Life.DeletedFileRemainsIff(life, id);
  }

  /** The file of a deleted row with no deletion in flight stays on disk for good. */
  lemma StoredOrphansAreForever(s: State, acts: seq<Timed>, ch: Channel, id: Id)
    requires Inv(s) && Timely(s, acts) && ch in s.ix.disk && id in s.ix.disk[ch]
    requires s.ix.disk[ch][id].status.Deleted? && s.ix.disk[ch][id].path in s.rest.files
    requires forall d :: d in s.rest.deletions ==> d.id != id
    ensures var t := Run(s, acts);
            && ch in t.ix.disk && id in t.ix.disk[ch] && t.ix.disk[ch][id].status.Deleted?
            && t.ix.disk[ch][id].path == s.ix.disk[ch][id].path && t.ix.disk[ch][id].path in t.rest.files
  {
    assert Life.Inv(Abstract(s));
    var life := StoredRowStays(s, acts, ch, id);
    hide Inv, Timely, Run, Life.Inv, Life.Run, RowsOf;
    Life.OrphansAreForever(Abstract(s), life, id);
  }
}
