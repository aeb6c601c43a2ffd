/** Segment files and index rows under closing, retention, crashes and restarts
(pkg/recorder/recorder.go, pkg/recorder/index_sqlite.go).

The state is the durable index and disk, what the running process holds in memory, and history
variables. Every action is one file-system or SQL statement; an action that is not enabled changes
nothing, so every sequence of actions is a run and every prefix of it a crash point.
*/
module SegmentLifecycle {
  import opened Recording

  type Id = string
  type Path = string

  datatype Row = Row(status: Status, path: Path)

  /** A segment the running process is writing or closing. */
  datatype Phase =
    | Created(path: Path)                  // file exists, marker row not yet written
    | Writing(path: Path)                  // marker row attempted
    | Closing(path: Path, renamed: bool)   // rename attempted, final row not yet written

  /** A deletion that a retention pass has in flight; several passes may work on one channel. */
  datatype Deletion =
    | Queried(pass: nat, id: Id, path: Path)
    | Marked(pass: nat, id: Id, path: Path)

  datatype State = State(
    rows: map<Id, Row>,
    files: set<Path>,
    segments: map<Id, Phase>,
    deletions: set<Deletion>,
    booting: bool,
    owner: map<Path, Id>,    // history: which segment each path was handed out to
    usedIds: set<Id>,        // history
    stranded: set<Id>,       // history: renamed, but the row was never rewritten
    removed: set<Id>,        // history: retention removed the file
    cutOff: set<Id>)         // history: marked, but the removal failed or a crash came first

  const INIT := State(map[], {}, map[], {}, false, map[], {}, {}, {}, {})

  datatype Action =
    | CreateFile(id: Id, path: Path)
    | InsertMarker(id: Id, ok: bool)
    | Rename(id: Id, final: Path, ok: bool)
    | InsertFinal(id: Id, valid: bool, ok: bool)
    | RetentionQuery(pass: nat, id: Id)
    | MarkDeleted(d: Deletion, open: bool, ok: bool)
    | RemoveFile(d: Deletion, ok: bool)
    | Crash
    | Seal(channel: set<Id>)
    | Boot

  function RenamedIds(s: State): set<Id> {
    set id | id in s.segments && s.segments[id].Closing? && s.segments[id].renamed :: id
  }

  function MarkedIds(s: State): set<Id> {
    set d | d in s.deletions && d.Marked? :: d.id
  }

  function SealRow(r: Row): Row {
    if r.status.InProgress? then r.(status := Interrupted) else r
  }

  /** One step. Ids and paths handed out by CreateFile and Rename are new ones; MarkDeleted reaches the
      row only when the channel's database is open. */
  function Do(s: State, a: Action): (t: State) {
    match a
    case CreateFile(id, path) =>
      if s.booting || id in s.usedIds || path in s.owner then s
      else s.(files := s.files + {path}, segments := s.segments[id := Created(path)],
              owner := s.owner[path := id], usedIds := s.usedIds + {id})
    case InsertMarker(id, ok) =>
      if !(id in s.segments && s.segments[id].Created?) then s
      else
        var p := s.segments[id].path;
        s.(rows := if ok then s.rows[id := Row(InProgress, p)] else s.rows,
           segments := s.segments[id := Writing(p)])
    case Rename(id, final, ok) =>
      if !(id in s.segments && s.segments[id].Writing?) || (ok && final in s.owner) then s
      else
        var p := s.segments[id].path;
        if ok then
          s.(files := s.files - {p} + {final}, owner := s.owner[final := id],
             segments := s.segments[id := Closing(final, true)])
        else
          s.(segments := s.segments[id := Closing(p, false)])
    case InsertFinal(id, valid, ok) =>
      if !(id in s.segments && s.segments[id].Closing?) then s
      else
        var ph := s.segments[id];
        s.(rows := if ok then s.rows[id := Row(if valid then Complete else Corrupted, ph.path)] else s.rows,
           segments := s.segments - {id},
           stranded := if ok || !ph.renamed then s.stranded else s.stranded + {id})
    case RetentionQuery(pass, id) =>
      if s.booting || !(id in s.rows && Playable(s.rows[id].status)) then s
      else s.(deletions := s.deletions + {Queried(pass, id, s.rows[id].path)})
    case MarkDeleted(d, open, ok) =>
      if !(d in s.deletions && d.Queried?) then s
      else if !ok then s.(deletions := s.deletions - {d})
      else
        s.(rows := if open && d.id in s.rows then s.rows[d.id := s.rows[d.id].(status := Deleted)] else s.rows,
           deletions := s.deletions - {d} + {Marked(d.pass, d.id, d.path)})
    case RemoveFile(d, ok) =>
      if !(d in s.deletions && d.Marked?) then s
      else
        s.(files := if ok then s.files - {d.path} else s.files, deletions := s.deletions - {d},
           removed := if ok then s.removed + {d.id} else s.removed,
           cutOff := if ok then s.cutOff else s.cutOff + {d.id})
    case Crash =>
      s.(segments := map[], deletions := {}, booting := true,
         stranded := s.stranded + RenamedIds(s), cutOff := s.cutOff + MarkedIds(s))
    case Seal(channel) =>
      if !s.booting then s
      else s.(rows := map id | id in s.rows :: if id in channel then SealRow(s.rows[id]) else s.rows[id])
    case Boot => s.(booting := false)
  }

  function Run(s: State, acts: seq<Action>): (t: State)
    decreases |acts|
  {
    if acts == [] then s else Run(Do(s, acts[0]), acts[1..])
  }

  /** Every Delete of the run finds the channel's database open. */
  ghost predicate DbOpenAtDelete(acts: seq<Action>) {
    forall a :: a in acts && a.MarkDeleted? ==> a.open
  }

  // ---------------------------------------------------------------- invariant

  /** What row `id` says about the disk. */
  ghost predicate RowOk(s: State, id: Id)
    requires id in s.rows
  {
    var r := s.rows[id];
    && id in s.usedIds
    && r.path in s.owner && s.owner[r.path] == id
    && match r.status
       case Complete => r.path in s.files && id !in s.segments && id !in s.stranded
       case Corrupted => r.path in s.files && id !in s.segments && id !in s.stranded
       case Deleted =>
         && id !in s.segments
         && (r.path in s.files <==> id !in s.removed && id !in s.stranded)
         && (id in s.removed || id in s.cutOff || id in MarkedIds(s))
       case Interrupted => id !in s.segments && (r.path in s.files <==> id !in s.stranded)
       case InProgress =>
         if id in s.segments then
           match s.segments[id]
           case Created(_) => false
           case Writing(p) => p == r.path
           case Closing(p, renamed) => if renamed then r.path !in s.files else p == r.path
         else (r.path in s.files <==> id !in s.stranded)
  }

  ghost predicate SegmentOk(s: State, id: Id)
    requires id in s.segments
  {
    var p := s.segments[id].path;
    && id in s.usedIds && id !in s.stranded
    && p in s.files && p in s.owner && s.owner[p] == id
    && (s.segments[id].Created? ==> id !in s.rows)
  }

  ghost predicate DeletionOk(s: State, d: Deletion) {
    && d.id in s.rows && s.rows[d.id].path == d.path
    && (s.rows[d.id].status.Deleted? || (d.Queried? && Playable(s.rows[d.id].status)))
  }

  ghost predicate Inv(s: State) {
    && (forall id :: id in s.rows ==> RowOk(s, id))
    && (forall id :: id in s.segments ==> SegmentOk(s, id))
    && (forall d :: d in s.deletions ==> DeletionOk(s, d))
    && s.stranded <= s.usedIds
    && (forall id :: id in s.removed || id in s.cutOff ==> id in s.rows && s.rows[id].status.Deleted?)
    && s.files <= s.owner.Keys
    && (s.booting ==> s.segments == map[])
  }

  /** The steps of a segment's own life. */
  lemma WriterKeepsRow(s: State, a: Action, id: Id)
    requires Inv(s) && id in Do(s, a).rows
    requires a.CreateFile? || a.InsertMarker? || a.Rename? || a.InsertFinal?
    ensures RowOk(Do(s, a), id)
  {
    if id in s.rows { assert RowOk(s, id); }
    if a.id in s.segments { assert SegmentOk(s, a.id); }
  }

  /** The steps of retention. */
  lemma RetentionKeepsRow(s: State, a: Action, id: Id)
    requires Inv(s) && id in Do(s, a).rows && (a.MarkDeleted? ==> a.open)
    requires a.MarkDeleted? || a.RemoveFile?
    ensures RowOk(Do(s, a), id)
  {
    assert RowOk(s, id);
    if a.d in s.deletions { assert DeletionOk(s, a.d) && RowOk(s, a.d.id); }
  }

  /** The retention query, crash and restart. */
  lemma OthersKeepRow(s: State, a: Action, id: Id)
    requires Inv(s) && id in Do(s, a).rows && (a.RetentionQuery? || a.Crash? || a.Seal? || a.Boot?)
    ensures RowOk(Do(s, a), id)
  {
    assert RowOk(s, id);
    if id in s.segments { assert SegmentOk(s, id); }
  }

  lemma StepKeepsRows(s: State, a: Action)
    requires Inv(s) && (a.MarkDeleted? ==> a.open)
    ensures var t := Do(s, a); forall id :: id in t.rows ==> RowOk(t, id)
  {
    forall id | id in Do(s, a).rows ensures RowOk(Do(s, a), id) {
      if a.CreateFile? || a.InsertMarker? || a.Rename? || a.InsertFinal? {
        WriterKeepsRow(s, a, id);
      } else if a.MarkDeleted? || a.RemoveFile? {
        RetentionKeepsRow(s, a, id);
      } else {
        OthersKeepRow(s, a, id);
      }
    }
  }

  lemma StepKeepsSegments(s: State, a: Action)
    requires Inv(s) && (a.MarkDeleted? ==> a.open)
    ensures var t := Do(s, a); forall id :: id in t.segments ==> SegmentOk(t, id)
  {
    var t := Do(s, a);
    forall id | id in t.segments ensures SegmentOk(t, id) {
      if id in s.segments { assert SegmentOk(s, id); }
      match a
      case CreateFile(i, p) => if i in s.rows { assert RowOk(s, i); }
      case Rename(i, f, ok) => if i in s.segments { assert SegmentOk(s, i); }
      case RemoveFile(d, _) => if d in s.deletions { assert DeletionOk(s, d); assert RowOk(s, d.id); }
      case _ =>
    }
  }

  lemma StepKeepsDeletion(s: State, a: Action, d: Deletion)
    requires Inv(s) && (a.MarkDeleted? ==> a.open) && d in Do(s, a).deletions
    ensures DeletionOk(Do(s, a), d)
  {
    hide MarkedIds, RenamedIds;
    if d in s.deletions { assert DeletionOk(s, d); assert RowOk(s, d.id); }
    match a
    case MarkDeleted(e, _, _) => if e in s.deletions { assert DeletionOk(s, e); }
    case InsertMarker(i, ok) => if i in s.segments { assert SegmentOk(s, i); }
    case InsertFinal(i, v, ok) => if i in s.segments { assert SegmentOk(s, i); }
    case _ =>
  }

  lemma StepKeepsInv(s: State, a: Action)
    requires Inv(s) && (a.MarkDeleted? ==> a.open)
    ensures Inv(Do(s, a))
  {
    StepKeepsRows(s, a);
    StepKeepsSegments(s, a);
    var t := Do(s, a);
    forall d | d in t.deletions ensures DeletionOk(t, d) { StepKeepsDeletion(s, a, d); }
    assert t.files <= t.owner.Keys;
    match a {
      case InsertFinal(i, v, ok) => if i in s.segments { assert SegmentOk(s, i); }
      case Crash => forall id | id in RenamedIds(s) ensures id in s.usedIds { assert SegmentOk(s, id); }
      case _ =>
    }
  }

  lemma {:induction false} RunKeepsInv(s: State, acts: seq<Action>)
    requires Inv(s) && DbOpenAtDelete(acts)
    ensures Inv(Run(s, acts))
    decreases |acts|
  {
    if acts != [] {
      assert acts[0] in acts;
      StepKeepsInv(s, acts[0]);
      RunKeepsInv(Do(s, acts[0]), acts[1..]);
    }
  }

  /** Safety over all runs: a complete row names a file that exists; a row the index offers to readers
      lacks its file exactly when the close of that segment broke off between rename and row update. */
  lemma OfferedRowsHaveFiles(acts: seq<Action>, id: Id)
    requires DbOpenAtDelete(acts) && id in Run(INIT, acts).rows
    ensures var s := Run(INIT, acts); var r := s.rows[id];
            && (r.status.Complete? ==> r.path in s.files)
            && (Playable(r.status) ==> (r.path in s.files <==> id !in s.stranded))
  {
    RunKeepsInv(INIT, acts);
    assert RowOk(Run(INIT, acts), id);
  }

  // ---------------------------------------------------------------- two-state safety

  /** One step: recording -> complete | corrupted | interrupted, and complete | interrupted -> deleted. */
  predicate MayStep(a: Status, b: Status) {
    || a == b
    || (a.InProgress? && (b.Complete? || b.Corrupted? || b.Interrupted?))
    || (Playable(a) && b.Deleted?)
  }

  /** Any number of such steps. */
  predicate MayBecome(a: Status, b: Status) {
    a.InProgress? || MayStep(a, b)
  }

  ghost predicate RowEvolves(s: State, t: State, id: Id)
    requires id in s.rows
  {
    && id in t.rows && id in s.usedIds
    && MayBecome(s.rows[id].status, t.rows[id].status)
    && (!s.rows[id].status.InProgress? ==>
          && t.rows[id].path == s.rows[id].path
          && (id in t.stranded <==> id in s.stranded))
  }

  /** Each single action moves a row's status by at most one such step. */
  lemma StepEvolves(s: State, a: Action, id: Id)
    requires Inv(s) && (a.MarkDeleted? ==> a.open) && id in s.rows
    ensures RowEvolves(s, Do(s, a), id) && MayStep(s.rows[id].status, Do(s, a).rows[id].status)
  {
    assert RowOk(s, id);
    match a
    case InsertMarker(i, ok) => if i in s.segments { assert SegmentOk(s, i); }
    case InsertFinal(i, v, ok) => if i in s.segments { assert SegmentOk(s, i); }
    case MarkDeleted(d, _, _) => if d in s.deletions { assert DeletionOk(s, d); }
    case _ =>
  }

  /** Over any run from any reachable state: rows never disappear and their status only moves forward;
      corrupted and deleted are final. */
  lemma {:induction false} RowsOnlyMoveForward(s: State, acts: seq<Action>, id: Id)
    requires Inv(s) && DbOpenAtDelete(acts) && id in s.rows
    ensures RowEvolves(s, Run(s, acts), id)
    decreases |acts|
  {
    if acts == [] {
      assert RowOk(s, id);
    } else {
      assert acts[0] in acts;
      var t := Do(s, acts[0]);
      StepEvolves(s, acts[0], id);
      StepKeepsInv(s, acts[0]);
      RowsOnlyMoveForward(t, acts[1..], id);
    }
  }

  /** A reader that saw a row and its file finds the file gone later only if retention deleted the row
      in between. */
  lemma ReaderMissesOnlyDeleted(s: State, acts: seq<Action>, id: Id)
    requires Inv(s) && DbOpenAtDelete(acts)
    requires id in s.rows && Playable(s.rows[id].status) && s.rows[id].path in s.files
    ensures var t := Run(s, acts);
            && id in t.rows && t.rows[id].path == s.rows[id].path
            && (s.rows[id].path !in t.files ==> t.rows[id].status.Deleted?)
  {
    RowsOnlyMoveForward(s, acts, id);
    RunKeepsInv(s, acts);
    assert RowOk(s, id);
    assert RowOk(Run(s, acts), id);
  }

  /** The file of a deleted row, in every reachable state: it is on disk exactly when its removal is in
      flight or was cut off by a crash or an error, no other pass removed it, and it had not been
      stranded before. */
  lemma DeletedFileRemainsIff(acts: seq<Action>, id: Id)
    requires DbOpenAtDelete(acts) && id in Run(INIT, acts).rows && Run(INIT, acts).rows[id].status.Deleted?
    ensures var s := Run(INIT, acts);
            s.rows[id].path in s.files <==>
            (id in MarkedIds(s) || id in s.cutOff) && id !in s.removed && id !in s.stranded
  {
    RunKeepsInv(INIT, acts);
    assert RowOk(Run(INIT, acts), id);
  }

  /** Row deleted, file still there, and no deletion of it in flight: what a crash between the two
      leaves behind. */
  ghost predicate Orphan(s: State, id: Id) {
    && id in s.rows && s.rows[id].status.Deleted? && s.rows[id].path in s.files
    && forall d :: d in s.deletions ==> d.id != id
  }

  lemma StepKeepsOrphan(s: State, a: Action, id: Id)
    requires Inv(s) && (a.MarkDeleted? ==> a.open) && Orphan(s, id)
    ensures Orphan(Do(s, a), id)
  {
    assert RowOk(s, id);
    StepEvolves(s, a, id);
    match a
    case Rename(i, f, ok) => if i in s.segments { assert SegmentOk(s, i); }
    case RemoveFile(d, ok) => if d in s.deletions { assert DeletionOk(s, d); assert RowOk(s, d.id); }
    case _ =>
  }

  /** Such a file is never removed again, whatever the recorder goes on to do. */
  lemma {:induction false} OrphansAreForever(s: State, acts: seq<Action>, id: Id)
    requires Inv(s) && DbOpenAtDelete(acts) && Orphan(s, id)
    ensures Orphan(Run(s, acts), id)
    decreases |acts|
  {
    if acts != [] {
      assert acts[0] in acts;
      StepKeepsOrphan(s, acts[0], id);
      StepKeepsInv(s, acts[0]);
      OrphansAreForever(Do(s, acts[0]), acts[1..], id);
    }
  }

  // ---------------------------------------------------------------- what becomes of a close and of a seal

  /** A segment closed with its row written is offered exactly when it was valid; an invalid one is
      corrupted for good, through every continuation. */
  lemma InvalidSegmentNeverOffered(s: State, id: Id, valid: bool, acts: seq<Action>)
    requires Inv(s) && id in s.segments && s.segments[id].Closing? && DbOpenAtDelete(acts)
    ensures var t := Do(s, InsertFinal(id, valid, true));
            && id in t.rows && (Playable(t.rows[id].status) <==> valid)
            && (!valid ==> id in Run(t, acts).rows && !Playable(Run(t, acts).rows[id].status) && !Run(t, acts).rows[id].status.Deleted?)
  {
    var t := Do(s, InsertFinal(id, valid, true));
    StepKeepsInv(s, InsertFinal(id, valid, true));
    RowsOnlyMoveForward(t, acts, id);
    hide Run;
  }

  /** When writing that row fails, validity is lost: after a restart the segment is offered as interrupted,
      invalid or not. */
  lemma FailedCloseIsOffered(s: State, id: Id, valid: bool, channel: set<Id>)
    requires Inv(s) && id in s.segments && s.segments[id].Closing? && id in s.rows && id in channel
    ensures var t := Do(Do(Do(s, InsertFinal(id, valid, false)), Crash), Seal(channel));
            id in t.rows && t.rows[id].status == Interrupted
  {
    assert RowOk(s, id);
  }

  /** Sealing a channel at start-up leaves no row of it in progress, turns those that were into
      interrupted ones, and touches nothing else. */
  lemma SealingEndsRecordings(s: State, channel: set<Id>, id: Id)
    requires s.booting && id in s.rows
    ensures var t := Do(s, Seal(channel));
            && t == s.(rows := t.rows) && t.rows.Keys == s.rows.Keys && t.rows[id].path == s.rows[id].path
            && (id in channel ==> !t.rows[id].status.InProgress?)
            && (t.rows[id].status == s.rows[id].status || (id in channel && s.rows[id].status.InProgress? && t.rows[id].status.Interrupted?))
  {}

  // ---------------------------------------------------------------- the assumptions are needed

  /** For a complete segment up for deletion: marking and removing it keeps complete rows backed by
      files exactly when the channel's database is open at the time. */
  lemma DeleteNeedsOpenDatabase(s: State, d: Deletion, open: bool)
    requires Inv(s) && d in s.deletions && d.Queried? && s.rows[d.id].status.Complete?
    ensures var t := Do(Do(s, MarkDeleted(d, open, true)), RemoveFile(Marked(d.pass, d.id, d.path), true));
            (forall id :: id in t.rows && t.rows[id].status.Complete? ==> t.rows[id].path in t.files) <==> open
  {
    assert DeletionOk(s, d) && RowOk(s, d.id);
    var m := Do(s, MarkDeleted(d, open, true));
    var t := Do(m, RemoveFile(Marked(d.pass, d.id, d.path), true));
    if open {
      StepKeepsInv(s, MarkDeleted(d, open, true));
      StepKeepsInv(m, RemoveFile(Marked(d.pass, d.id, d.path), true));
      forall id | id in t.rows && t.rows[id].status.Complete? ensures t.rows[id].path in t.files {
        assert RowOk(t, id);
      }
    } else {
      assert t.rows[d.id].status.Complete? && t.rows[d.id].path !in t.files;
    }
  }

  /** A crash between rename and row update: after the restart the index offers a row whose file is not
      where it says, and no retention was involved. */
  lemma CrashAfterRenameStrands(id: Id, tmp: Path, final: Path)
    requires tmp != final
    ensures var s := Run(INIT, [CreateFile(id, tmp), InsertMarker(id, true), Rename(id, final, true), Crash, Seal({id})]);
            && id in s.rows && s.rows[id] == Row(Interrupted, tmp)
            && s.files == {final} && id in s.stranded
  {
    var s1 := Do(INIT, CreateFile(id, tmp));
    var s2 := Do(s1, InsertMarker(id, true));
    var s3 := Do(s2, Rename(id, final, true));
    var s4 := Do(s3, Crash);
    var s5 := Do(s4, Seal({id}));
    Run5(INIT, CreateFile(id, tmp), InsertMarker(id, true), Rename(id, final, true), Crash, Seal({id}));
    assert s5.files == {final};
  }

  /** A crash between mark and remove: the file stays, its row is gone from every query. */
  lemma CrashLeavesOrphan(id: Id, tmp: Path, final: Path)
    requires tmp != final
    ensures var s := Run(INIT, [CreateFile(id, tmp), InsertMarker(id, true), Rename(id, final, true), InsertFinal(id, true, true),
                                RetentionQuery(0, id), MarkDeleted(Queried(0, id, final), true, true), Crash]);
            Orphan(s, id) && s.rows[id] == Row(Deleted, final) && s.files == {final}
  {
    var a, b, c := CreateFile(id, tmp), InsertMarker(id, true), Rename(id, final, true);
    var d, e, f := InsertFinal(id, true, true), RetentionQuery(0, id), MarkDeleted(Queried(0, id, final), true, true);
    var acts, s := [a, b, c, d, e, f, Crash], Run(INIT, [a, b, c, d, e]);
    CompleteAndQueried(id, tmp, final);
    RunSplit(INIT, acts, 5);
    assert acts[..5] == [a, b, c, d, e] && acts[5..] == [f, Crash];
    assert [f, Crash][1..] == [Crash] && [Crash][1..] == [];
    assert Run(s, [f, Crash]) == Run(Do(s, f), [Crash]) == Run(Do(Do(s, f), Crash), []);
  }

  /** An undisturbed segment up to the retention query. */
  lemma CompleteAndQueried(id: Id, tmp: Path, final: Path)
    requires tmp != final
    ensures var s := Run(INIT, [CreateFile(id, tmp), InsertMarker(id, true), Rename(id, final, true), InsertFinal(id, true, true), RetentionQuery(0, id)]);
            s.rows == map[id := Row(Complete, final)] && s.files == {final} && s.deletions == {Queried(0, id, final)}
  {
    var a, b, c := CreateFile(id, tmp), InsertMarker(id, true), Rename(id, final, true);
    var s3 := Do(Do(Do(INIT, a), b), c);
    assert s3.files == {final} && s3.segments == map[id := Closing(final, true)] && s3.rows == map[id := Row(InProgress, tmp)];
    Run5(INIT, a, b, c, InsertFinal(id, true, true), RetentionQuery(0, id));
  }

  lemma {:induction false} RunSplit(s: State, acts: seq<Action>, k: nat)
    requires k <= |acts|
    ensures Run(s, acts) == Run(Run(s, acts[..k]), acts[k..])
    decreases k
  {
    if k > 0 {
      assert acts[1..][..k - 1] == acts[..k][1..] && acts[1..][k - 1..] == acts[k..];
      RunSplit(Do(s, acts[0]), acts[1..], k - 1);
    }
  }

  lemma Run5(s: State, a: Action, b: Action, c: Action, d: Action, e: Action)
    ensures Run(s, [a, b, c, d, e]) == Do(Do(Do(Do(Do(s, a), b), c), d), e)
  {
    hide Do;
    RunCons(s, a, [b, c, d, e]);
    var t := Do(s, a);
    RunCons(t, b, [c, d, e]);
    RunCons(Do(t, b), c, [d, e]);
    RunCons(Do(Do(t, b), c), d, [e]);
    RunCons(Do(Do(Do(t, b), c), d), e, []);
  }

  lemma RunCons(s: State, a: Action, acts: seq<Action>)
    ensures Run(s, [a] + acts) == Run(Do(s, a), acts)
  {
    hide Do;
    assert ([a] + acts)[1..] == acts;
  }
}
