/** Consumer handles of the recording manager (tick, processSchedule, startSegment, rotateSegment,
stopAll and appendDefaults in pkg/recorder/recorder.go).

The poll loop starts one worker per active schedule and waits for all of them. A step is one critical
section or one external call; workers interleave arbitrarily. Handles are numbered in the order in
which Consume returned them.
*/
module RecorderWorkers {
  import opened Wrappers

  type Sid = string
  type Handle = nat

  datatype Pc =
    | Begin
    | Rotating(h: Handle)   // read the active record, about to take it out of the map
    | Removed(h: Handle)    // took it out, about to close it
    | Starting              // about to call Consume
    | Opened(h: Handle)     // Consume returned, about to register
    | Done

  datatype Worker = Worker(sid: Sid, pc: Pc)

  datatype Loop =
    | Idle
    | Working(listed: set<Sid>)
    | Closing(stopping: bool)
    | Stopped

  datatype State = State(
    active: map<Sid, Handle>,
    workers: seq<Worker>,
    poll: Loop,
    closing: set<Handle>,        // taken out of the map by the poll loop, not yet closed
    owners: seq<Sid>,            // owners[h] is the schedule handle h was opened for
    closed: multiset<Handle>)    // every Close call so far

  const INIT := State(map[], [], Idle, {}, [], multiset{})

  datatype Action =
    | Tick(ids: seq<Sid>)
    | Work(w: nat, go: bool)     // go: start rather than skip, rotate rather than stay, Consume succeeds
    | CollectStale
    | CloseOne(h: Handle)
    | EndClosing
    | Stop

  function Step(s: State, k: nat, go: bool): (t: State)
    requires k < |s.workers|
  {
    var sid := s.workers[k].sid;
    match s.workers[k].pc
    case Begin =>
      if sid in s.active then At(s, k, if go then Rotating(s.active[sid]) else Done)
      else At(s, k, if go then Starting else Done)
    case Rotating(h) => At(s, k, Removed(h)).(active := s.active - {sid})
    case Removed(h) => At(s, k, Starting).(closed := s.closed + multiset{h})
    case Starting =>
      if go then At(s, k, Opened(|s.owners|)).(owners := s.owners + [sid]) else At(s, k, Done)
    case Opened(h) => At(s, k, Done).(active := s.active[sid := h])
    case Done => s
  }

  function At(s: State, k: nat, pc: Pc): State
    requires k < |s.workers|
  {
    s.(workers := s.workers[k := s.workers[k].(pc := pc)])
  }

  function Do(s: State, a: Action): (t: State) {
    match a
    case Tick(ids) =>
      if !s.poll.Idle? then s
      else s.(poll := Working(set x | x in ids), workers := seq(|ids|, i requires 0 <= i < |ids| => Worker(ids[i], Begin)))
    case Work(k, go) =>
      if s.poll.Working? && k < |s.workers| then Step(s, k, go) else s
    case CollectStale =>
      if !(s.poll.Working? && forall w :: w in s.workers ==> w.pc.Done?) then s
      else
        var stale := s.active.Keys - s.poll.listed;
        s.(poll := Closing(false), workers := [], active := s.active - stale, closing := set x | x in stale :: s.active[x])
    case CloseOne(h) =>
      if !(s.poll.Closing? && h in s.closing) then s
      else s.(closing := s.closing - {h}, closed := s.closed + multiset{h})
    case EndClosing =>
      if !(s.poll.Closing? && s.closing == {}) then s
      else s.(poll := if s.poll.stopping then Stopped else Idle)
    case Stop =>
      if !s.poll.Idle? then s
      else s.(poll := Closing(true), active := map[], closing := s.active.Values)
  }

  function Run(s: State, acts: seq<Action>): (t: State) {
    if acts == [] then s else Do(Run(s, acts[..|acts| - 1]), acts[|acts| - 1])
  }

  ghost predicate Distinct(ids: seq<Sid>) {
    forall i, j :: 0 <= i < j < |ids| ==> ids[i] != ids[j]
  }

  /** No tick lists a schedule id twice. */
  ghost predicate DistinctTicks(acts: seq<Action>) {
    forall a :: a in acts && a.Tick? ==> Distinct(a.ids)
  }

  // ---------------------------------------------------------------- where a handle is

  ghost predicate Open(s: State, h: Handle) {
    h < |s.owners| && s.closed[h] == 0
  }

  predicate Holds(w: Worker, h: Handle) {
    w.pc == Removed(h) || w.pc == Opened(h)
  }

  ghost predicate InMap(s: State, h: Handle) { exists x :: x in s.active && s.active[x] == h }
  ghost predicate WithWorker(s: State, h: Handle) { exists k :: 0 <= k < |s.workers| && Holds(s.workers[k], h) }

  ghost predicate ActiveOk(s: State, x: Sid)
    requires x in s.active
  {
    var h := s.active[x];
    Open(s, h) && s.owners[h] == x && h !in s.closing
  }

  ghost predicate WorkerOk(s: State, k: nat)
    requires k < |s.workers|
  {
    var sid := s.workers[k].sid;
    match s.workers[k].pc
    case Begin => true
    case Rotating(h) => sid in s.active && s.active[sid] == h
    case Removed(h) => sid !in s.active && Open(s, h) && s.owners[h] == sid
    case Starting => sid !in s.active
    case Opened(h) => sid !in s.active && Open(s, h) && s.owners[h] == sid
    case Done => true
  }

  ghost predicate ClosingOk(s: State, h: Handle) {
    Open(s, h) && s.owners[h] !in s.active
  }

  ghost predicate HandleOk(s: State, h: Handle)
    requires h < |s.owners|
  {
    && s.closed[h] <= 1
    && (s.closed[h] == 0 ==>
          || (s.owners[h] in s.active && s.active[s.owners[h]] == h)
          || WithWorker(s, h)
          || h in s.closing)
  }

  ghost predicate Inv(s: State) {
    && (forall x :: x in s.active ==> ActiveOk(s, x))
    && (forall k :: 0 <= k < |s.workers| ==> WorkerOk(s, k))
    && (forall i, j :: 0 <= i < j < |s.workers| ==> s.workers[i].sid != s.workers[j].sid)
    && (forall h :: h in s.closing ==> ClosingOk(s, h))
    && (forall g, h :: g in s.closing && h in s.closing && s.owners[g] == s.owners[h] ==> g == h)
    && (forall h :: 0 <= h < |s.owners| ==> HandleOk(s, h))
    && (forall h :: h in s.closed ==> h < |s.owners|)
    && (s.workers != [] ==> s.poll.Working?)
    && (s.closing != {} ==> s.poll.Closing?)
    && (s.poll.Stopped? ==> s.active == map[])
    && (s.poll.Closing? && s.poll.stopping ==> s.active == map[])
  }

  lemma WorkKeepsHandle(s: State, k: nat, go: bool, h: Handle)
    requires Inv(s) && s.poll.Working? && k < |s.workers| && h < |Step(s, k, go).owners|
    ensures HandleOk(Step(s, k, go), h)
  {
    var t := Step(s, k, go);
    assert WorkerOk(s, k);
    if h < |s.owners| {
      assert HandleOk(s, h);
      if WithWorker(s, h) {
        var j :| 0 <= j < |s.workers| && Holds(s.workers[j], h);
        assert j != k ==> t.workers[j] == s.workers[j];
        assert WorkerOk(s, j);
      }
      if s.workers[k].pc == Rotating(h) { assert Holds(t.workers[k], h); }
    } else {
      assert Holds(t.workers[k], h);
    }
  }

  lemma WorkKeepsActive(s: State, k: nat, go: bool, x: Sid)
    requires Inv(s) && s.poll.Working? && k < |s.workers| && x in Step(s, k, go).active
    ensures ActiveOk(Step(s, k, go), x)
  {
    assert WorkerOk(s, k);
    if x in s.active { assert ActiveOk(s, x); }
  }

  lemma WorkKeepsWorker(s: State, k: nat, go: bool, j: nat)
    requires Inv(s) && s.poll.Working? && k < |s.workers| && j < |s.workers|
    ensures WorkerOk(Step(s, k, go), j)
  {
    var t := Step(s, k, go);
    assert WorkerOk(s, k);
    if j != k {
      assert WorkerOk(s, j);
      assert s.workers[j].sid != s.workers[k].sid && t.workers[j] == s.workers[j];
    } else if s.workers[k].sid in s.active {
      assert ActiveOk(s, s.workers[k].sid);
    }
  }

  lemma WorkKeepsInv(s: State, k: nat, go: bool)
    requires Inv(s) && s.poll.Working? && k < |s.workers|
    ensures Inv(Step(s, k, go))
  {
    var t := Step(s, k, go);
    forall h | 0 <= h < |t.owners| ensures HandleOk(t, h) { WorkKeepsHandle(s, k, go, h); }
    forall x | x in t.active ensures ActiveOk(t, x) { WorkKeepsActive(s, k, go, x); }
    forall j | 0 <= j < |t.workers| ensures WorkerOk(t, j) { WorkKeepsWorker(s, k, go, j); }
    WorkKeepsShape(s, k, go);
    hide HandleOk, ActiveOk, WorkerOk, Step;
  }

  lemma WorkKeepsShape(s: State, k: nat, go: bool)
    requires Inv(s) && s.poll.Working? && k < |s.workers|
    ensures var t := Step(s, k, go);
            && t.poll == s.poll && t.closing == {} == s.closing
            && (forall i, j :: 0 <= i < j < |t.workers| ==> t.workers[i].sid != t.workers[j].sid)
            && (forall h :: h in t.closed ==> h < |t.owners|)
  {
    assert WorkerOk(s, k);
    hide HandleOk, ActiveOk, WorkerOk, ClosingOk;
    var t := Step(s, k, go);
    assert s.workers[k].pc.Removed? ==> s.workers[k].pc.h < |s.owners|;
    assert forall i :: 0 <= i < |s.workers| ==> t.workers[i].sid == s.workers[i].sid;
  }

  lemma TickKeepsInv(s: State, ids: seq<Sid>)
    requires Inv(s) && Distinct(ids)
    ensures Inv(Do(s, Tick(ids)))
  {
    var t := Do(s, Tick(ids));
    if s.poll.Idle? {
      forall x | x in t.active ensures ActiveOk(t, x) { assert ActiveOk(s, x); }
      forall h | 0 <= h < |t.owners| ensures HandleOk(t, h) { assert HandleOk(s, h); }
    }
  }

  lemma CollectKeepsInv(s: State)
    requires Inv(s)
    ensures Inv(Do(s, CollectStale))
  {
    var t := Do(s, CollectStale);
    if t != s {
      forall x | x in s.active ensures ActiveOk(s, x) {}
      forall h | 0 <= h < |t.owners| ensures HandleOk(t, h) {
        assert HandleOk(s, h);
        if WithWorker(s, h) {
          var j :| 0 <= j < |s.workers| && Holds(s.workers[j], h);
          assert s.workers[j] in s.workers;
        }
      }
      assert forall x :: x in t.active ==> x in s.active && t.active[x] == s.active[x];
      forall x | x in t.active ensures ActiveOk(t, x) {
        assert ActiveOk(s, x);
        assert forall y :: y in s.active && ActiveOk(s, y) && y != x ==> s.active[y] != s.active[x];
      }
    }
  }

  lemma CloseKeepsInv(s: State, h: Handle)
    requires Inv(s)
    ensures Inv(Do(s, CloseOne(h)))
  {
    var t := Do(s, CloseOne(h));
    if t != s {
      forall x | x in t.active ensures ActiveOk(t, x) { assert ActiveOk(s, x); }
      forall g | 0 <= g < |t.owners| ensures HandleOk(t, g) { assert HandleOk(s, g); }
      forall g | g in t.closing ensures ClosingOk(t, g) { assert ClosingOk(s, g); }
    }
  }

  lemma StopKeepsInv(s: State, a: Action)
    requires Inv(s) && (a.Stop? || a.EndClosing?)
    ensures Inv(Do(s, a))
  {
    var t := Do(s, a);
    if t != s {
      forall x | x in s.active ensures ActiveOk(s, x) {}
      forall h | 0 <= h < |t.owners| ensures HandleOk(t, h) { assert HandleOk(s, h); }
    }
  }

  lemma DoKeepsInv(s: State, a: Action)
    requires Inv(s) && (a.Tick? ==> Distinct(a.ids))
    ensures Inv(Do(s, a))
  {
    match a
    case Tick(ids) => TickKeepsInv(s, ids);
    case Work(k, go) => if s.poll.Working? && k < |s.workers| { WorkKeepsInv(s, k, go); }
    case CollectStale => CollectKeepsInv(s);
    case CloseOne(h) => CloseKeepsInv(s, h);
    case EndClosing => StopKeepsInv(s, a);
    case Stop => StopKeepsInv(s, a);
  }

  lemma {:induction false} RunKeepsInv(acts: seq<Action>)
    requires DistinctTicks(acts)
    ensures Inv(Run(INIT, acts))
    decreases |acts|
  {
    if acts != [] {
      var pre, a := acts[..|acts| - 1], acts[|acts| - 1];
      assert a in acts && forall b :: b in pre ==> b in acts;
      RunKeepsInv(pre);
      hide Inv, Do;
      DoKeepsInv(Run(INIT, pre), a);
    }
  }

  lemma HomesDisjoint(s: State, h: Handle)
    requires Inv(s) && h < |s.owners|
    ensures s.closed[h] <= 1
    ensures s.closed[h] == 0 <==> InMap(s, h) || WithWorker(s, h) || h in s.closing
    ensures !(InMap(s, h) && WithWorker(s, h))
    ensures !(h in s.closing && (InMap(s, h) || WithWorker(s, h)))
  {
    assert HandleOk(s, h);
    if InMap(s, h) {
      var x :| x in s.active && s.active[x] == h;
      assert ActiveOk(s, x);
    }
    if WithWorker(s, h) {
      var k :| 0 <= k < |s.workers| && Holds(s.workers[k], h);
      assert WorkerOk(s, k);
    }
    if h in s.closing { assert ClosingOk(s, h); }
  }

  /** In every reachable state a handle is open exactly while it is in one place, and never in two. */
  lemma OneHomePerHandle(acts: seq<Action>, h: Handle)
    requires DistinctTicks(acts) && h < |Run(INIT, acts).owners|
    ensures var s := Run(INIT, acts);
            && s.closed[h] <= 1
            && (s.closed[h] == 0 <==> InMap(s, h) || WithWorker(s, h) || h in s.closing)
            && !(InMap(s, h) && WithWorker(s, h))
            && !(h in s.closing && (InMap(s, h) || WithWorker(s, h)))
  {
    hide *;
    RunKeepsInv(acts);
    HomesDisjoint(Run(INIT, acts), h);
  }

  lemma WorkersDiffer(s: State, g: Handle, h: Handle)
    requires Inv(s) && Open(s, g) && Open(s, h) && s.owners[g] == s.owners[h] && WithWorker(s, g)
    ensures g == h
  {
    assert HandleOk(s, h);
    var k :| 0 <= k < |s.workers| && Holds(s.workers[k], g);
    assert WorkerOk(s, k);
    if WithWorker(s, h) {
      var j :| 0 <= j < |s.workers| && Holds(s.workers[j], h);
      assert WorkerOk(s, j);
    }
  }

  lemma OpenDiffer(s: State, g: Handle, h: Handle)
    requires Inv(s) && Open(s, g) && Open(s, h) && s.owners[g] == s.owners[h]
    ensures g == h
  {
    assert HandleOk(s, g) && HandleOk(s, h);
    if WithWorker(s, g) {
      WorkersDiffer(s, g, h);
    } else if WithWorker(s, h) {
      WorkersDiffer(s, h, g);
    } else {
      if g in s.closing { assert ClosingOk(s, g); }
      if h in s.closing { assert ClosingOk(s, h); }
    }
  }

  /** No schedule ever has two open handles. */
  lemma OneHandlePerSchedule(acts: seq<Action>, g: Handle, h: Handle)
    requires DistinctTicks(acts)
    requires Open(Run(INIT, acts), g) && Open(Run(INIT, acts), h)
    requires Run(INIT, acts).owners[g] == Run(INIT, acts).owners[h]
    ensures g == h
  {
    RunKeepsInv(acts);
    hide Inv, Run;
    OpenDiffer(Run(INIT, acts), g, h);
  }

  /** Once Stop has returned, every handle ever returned by Consume was closed exactly once. */
  lemma StopClosesEverythingOnce(acts: seq<Action>, h: Handle)
    requires DistinctTicks(acts) && Run(INIT, acts).poll.Stopped?
    requires h < |Run(INIT, acts).owners|
    ensures Run(INIT, acts).closed[h] == 1
  {
    RunKeepsInv(acts);
    assert HandleOk(Run(INIT, acts), h);
  }

  // ---------------------------------------------------------------- which schedules record

  /** The ids of the last tick that took place, read off the run. */
  function LastListed(acts: seq<Action>): (ids: seq<Sid>) {
    if acts == [] then []
    else
      var pre, a := acts[..|acts| - 1], acts[|acts| - 1];
      if a.Tick? && Run(INIT, pre).poll.Idle? then a.ids else LastListed(pre)
  }

  /** The loop works on these ids; once it has collected, only they are in the map. */
  ghost predicate Serves(s: State, ids: seq<Sid>) {
    && (s.poll.Working? ==> s.poll.listed == set x | x in ids)
    && (s.poll.Idle? || (s.poll.Closing? && !s.poll.stopping) ==> forall x :: x in s.active ==> x in ids)
  }

  lemma {:induction false} RunServes(acts: seq<Action>)
    ensures Serves(Run(INIT, acts), LastListed(acts))
    decreases |acts|
  {
    if acts != [] { RunServes(acts[..|acts| - 1]); }
  }

  /** Whenever the loop is idle, in every run with distinct ticks: an open handle belongs to a schedule the
      last tick listed and is the one in the map for it; the handles of all other schedules were closed,
      once. */
  lemma OnlyListedRecord(acts: seq<Action>, h: Handle)
    requires DistinctTicks(acts) && Run(INIT, acts).poll.Idle? && h < |Run(INIT, acts).owners|
    ensures var s := Run(INIT, acts); var x := s.owners[h];
            && (s.closed[h] == 0 ==> x in LastListed(acts) && x in s.active && s.active[x] == h)
            && (x !in LastListed(acts) ==> s.closed[h] == 1)
  {
    RunKeepsInv(acts);
    RunServes(acts);
    hide Run, LastListed, Do;
    assert HandleOk(Run(INIT, acts), h);
  }

  ghost predicate Recording(s: State, h: Handle) {
    && h < |s.owners| && s.closed[h] == 0
    && s.owners[h] in s.active && s.active[s.owners[h]] == h
  }

  ghost predicate AllDone(s: State) { forall w :: w in s.workers ==> w.pc.Done? }

  /** On the way from the workers' end to idle, with h the handle of a listed schedule. */
  ghost predicate Safe(s: State, h: Handle) {
    && Recording(s, h)
    && (s.poll.Working? ==> AllDone(s) && s.owners[h] in s.poll.listed)
    && !s.poll.Stopped? && (s.poll.Closing? ==> !s.poll.stopping)
  }

  lemma StepKeepsSafe(s: State, a: Action, h: Handle)
    requires Inv(s) && Safe(s, h) && !a.Tick? && !a.Stop?
    ensures Safe(Do(s, a), h) && Do(s, a).owners == s.owners
  {
    assert ActiveOk(s, s.owners[h]);
    match a
    case Work(k, go) => if s.poll.Working? && k < |s.workers| { assert s.workers[k] in s.workers; }
    case CollectStale =>
      forall x | x in s.active && s.active[x] == h ensures x == s.owners[h] { assert ActiveOk(s, x); }
    case _ =>
  }

  /** A listed schedule's recording survives the rest of its tick: a handle open for it when all workers
      are done is still in the map and unclosed when the loop is idle again, and until the next tick or
      stop. */
  lemma {:induction false} ListedKeepRecording(pre: seq<Action>, post: seq<Action>, h: Handle)
    requires DistinctTicks(pre) && forall a :: a in post ==> !a.Tick? && !a.Stop?
    requires var s := Run(INIT, pre); s.poll.Working? && AllDone(s) && Open(s, h) && s.owners[h] in LastListed(pre)
    ensures var s := Run(INIT, pre); var t := Run(s, post); Recording(t, h) && t.owners == s.owners
  {
    var s := Run(INIT, pre);
    RunKeepsInv(pre);
    RunServes(pre);
    assert Recording(s, h) by {
      assert HandleOk(s, h);
      hide Run, LastListed;
    }
    SafeThrough(s, post, h);
  }

  lemma {:induction false} SafeThrough(s: State, post: seq<Action>, h: Handle)
    requires Inv(s) && Safe(s, h) && forall a :: a in post ==> !a.Tick? && !a.Stop?
    ensures Inv(Run(s, post)) && Safe(Run(s, post), h) && Run(s, post).owners == s.owners
    decreases |post|
  {
    if post != [] {
      var pre, a := post[..|post| - 1], post[|post| - 1];
      assert a in post && forall b :: b in pre ==> b in post;
      hide Inv, Safe, Do;
      SafeThrough(s, pre, h);
      StepKeepsSafe(Run(s, pre), a, h);
      DoKeepsInv(Run(s, pre), a);
    }
  }

  ghost predicate OnlyWork(post: seq<Action>) { forall a :: a in post ==> a.Work? }

  /** What worker k has got to since state s, if it always decides to go on. */
  ghost predicate Advanced(s: State, t: State, k: nat)
    requires k < |t.workers|
  {
    var x := t.workers[k].sid;
    && |s.owners| <= |t.owners|
    && match t.workers[k].pc
       case Opened(h) => |s.owners| <= h
       case Done => x in t.active && |s.owners| <= t.active[x]
       case _ => true
  }

  ghost predicate SameWorkers(s: State, t: State) {
    && t.poll == s.poll && |t.workers| == |s.workers|
    && forall k :: 0 <= k < |s.workers| ==> t.workers[k].sid == s.workers[k].sid
  }

  lemma WorkAdvances(s: State, t: State, a: Action, k: nat)
    requires Inv(t) && t.poll.Working? && k < |t.workers| && Advanced(s, t, k) && a.Work? && (a.w == k ==> a.go)
    ensures SameWorkers(t, Do(t, a)) && Advanced(s, Do(t, a), k)
  {
    assert WorkerOk(t, k);
    if a.w < |t.workers| && a.w != k { assert t.workers[a.w].sid != t.workers[k].sid; }
    hide Inv, WorkerOk;
    if a.w < |t.workers| { OneWorks(t, a.w, a.go); }
  }

  /** A worker's step leaves the other workers and the other schedules' map entries alone. */
  lemma OneWorks(t: State, w: nat, go: bool)
    requires w < |t.workers|
    ensures var u := Step(t, w, go);
            && SameWorkers(t, u) && |t.owners| <= |u.owners|
            && (forall k :: 0 <= k < |t.workers| && k != w ==> u.workers[k] == t.workers[k])
            && (forall x :: x != t.workers[w].sid ==>
                  (x in u.active <==> x in t.active) && (x in t.active ==> u.active[x] == t.active[x]))
  {}

  /** In every interleaving of the workers: a worker that decides to start or rotate and whose Consume
      succeeds ends with a handle opened in this tick in the map. */
  lemma {:induction false} WorkerStarts(s: State, post: seq<Action>, k: nat)
    requires Inv(s) && s.poll.Working? && k < |s.workers| && s.workers[k].pc.Begin?
    requires OnlyWork(post) && forall a :: a in post && a.w == k ==> a.go
    ensures var t := Run(s, post); Inv(t) && SameWorkers(s, t) && Advanced(s, t, k)
    decreases |post|
  {
    if post != [] {
      var pre, a := post[..|post| - 1], post[|post| - 1];
      assert a in post && forall b :: b in pre ==> b in post;
      hide Inv, Advanced, Do;
      WorkerStarts(s, pre, k);
      WorkAdvances(s, Run(s, pre), a, k);
      DoKeepsInv(Run(s, pre), a);
    }
  }

  /** Worker k has done nothing since state s. */
  ghost predicate Declined(s: State, t: State, k: nat)
    requires k < |t.workers|
  {
    var x := t.workers[k].sid;
    && (t.workers[k].pc.Begin? || t.workers[k].pc.Done?)
    && (x in t.active <==> x in s.active) && (x in s.active ==> t.active[x] == s.active[x])
  }

  lemma WorkDeclines(s: State, t: State, a: Action, k: nat)
    requires Inv(t) && t.poll.Working? && k < |t.workers| && Declined(s, t, k) && a.Work? && (a.w == k ==> !a.go)
    ensures SameWorkers(t, Do(t, a)) && Declined(s, Do(t, a), k)
  {
    if a.w < |t.workers| && a.w != k { assert t.workers[a.w].sid != t.workers[k].sid; }
    hide Inv;
    if a.w < |t.workers| { OneWorks(t, a.w, a.go); }
  }

  /** A worker that decides to do nothing leaves its schedule's recording as it was. */
  lemma {:induction false} WorkerDeclines(s: State, post: seq<Action>, k: nat)
    requires Inv(s) && s.poll.Working? && k < |s.workers| && s.workers[k].pc.Begin?
    requires OnlyWork(post) && forall a :: a in post && a.w == k ==> !a.go
    ensures var t := Run(s, post); Inv(t) && SameWorkers(s, t) && Declined(s, t, k)
    decreases |post|
  {
    if post != [] {
      var pre, a := post[..|post| - 1], post[|post| - 1];
      assert a in post && forall b :: b in pre ==> b in post;
      hide Inv, Declined, Do;
      WorkerDeclines(s, pre, k);
      WorkDeclines(s, Run(s, pre), a, k);
      DoKeepsInv(Run(s, pre), a);
    }
  }

  // ---------------------------------------------------------------- duplicate ids

  lemma RunSnoc(s: State, acts: seq<Action>, a: Action)
    ensures Run(s, acts + [a]) == Do(Run(s, acts), a)
  {
    assert (acts + [a])[..|acts|] == acts;
  }

  /** Every tick of the run lists exactly these ids. */
  ghost predicate TicksList(acts: seq<Action>, ids: seq<Sid>) {
    forall a :: a in acts && a.Tick? ==> a.ids == ids
  }

  ghost predicate Reaches(acts: seq<Action>, ids: seq<Sid>, s: State) {
    Run(INIT, acts) == s && TicksList(acts, ids)
  }

  lemma Snoc(ids: seq<Sid>, s: State, acts: seq<Action>, a: Action) returns (t: State, more: seq<Action>)
    requires Reaches(acts, ids, s) && (a.Tick? ==> a.ids == ids)
    ensures t == Do(s, a) && Reaches(more, ids, t)
  {
    t, more := Do(s, a), acts + [a];
    RunSnoc(INIT, acts, a);
  }

  /** Workers i and j, which share an id, advance in lockstep; nobody else has moved. */
  ghost predicate Lockstep(s: State, ids: seq<Sid>, i: nat, j: nat, p: Pc, q: Pc, active: map<Sid, Handle>, owners: seq<Sid>) {
    && s == State(active, s.workers, Working(set x | x in ids), {}, owners, multiset{})
    && |s.workers| == |ids| && i < j < |ids|
    && (forall k :: 0 <= k < |ids| ==>
          s.workers[k] == Worker(ids[k], if k == i then p else if k == j then q else Begin))
  }

  lemma BothMove(ids: seq<Sid>, s: State, acts: seq<Action>, i: nat, j: nat) returns (t: State, more: seq<Action>)
    requires Reaches(acts, ids, s)
    ensures t == Do(Do(s, Work(i, true)), Work(j, true)) && Reaches(more, ids, t)
  {
    hide Do, Reaches;
    t, more := Snoc(ids, s, acts, Work(i, true));
    t, more := Snoc(ids, t, more, Work(j, true));
  }

  /** Both find the id inactive, both open a handle, and both register it. */
  lemma BothStart(ids: seq<Sid>, i: nat, j: nat) returns (s: State, acts: seq<Action>)
    requires i < j < |ids| && ids[i] == ids[j]
    ensures Reaches(acts, ids, s) && Lockstep(s, ids, i, j, Done, Done, map[ids[i] := 1], [ids[i], ids[i]])
  {
    hide Reaches;
    var x := ids[i];
    assert Reaches([], ids, INIT) by { Nothing(ids); }
    s, acts := Snoc(ids, INIT, [], Tick(ids));
    assert Lockstep(s, ids, i, j, Begin, Begin, map[], []);
    s, acts := BothMove(ids, s, acts, i, j);
    assert Lockstep(s, ids, i, j, Starting, Starting, map[], []);
    s, acts := BothMove(ids, s, acts, i, j);
    assert Lockstep(s, ids, i, j, Opened(0), Opened(1), map[], [x, x]);
    s, acts := BothMove(ids, s, acts, i, j);
  }

  lemma Nothing(ids: seq<Sid>)
    ensures Reaches([], ids, INIT)
  {}

  /** The other workers find nothing to do. */
  lemma {:induction false} OthersFinish(ids: seq<Sid>, s: State, acts: seq<Action>, k: nat) returns (t: State, more: seq<Action>)
    requires Reaches(acts, ids, s) && s.poll.Working? && k <= |s.workers|
    requires forall w :: w in s.workers ==> w.pc.Begin? || w.pc.Done?
    requires forall i :: 0 <= i < k ==> s.workers[i].pc.Done?
    ensures Reaches(more, ids, t) && t == s.(workers := t.workers)
    ensures forall w :: w in t.workers ==> w.pc.Done?
    decreases |s.workers| - k
  {
    hide Reaches;
    if k == |s.workers| {
      t, more := s, acts;
    } else {
      assert s.workers[k] in s.workers;
      t, more := Snoc(ids, s, acts, Work(k, false));
      assert forall i :: 0 <= i < |t.workers| && i != k ==> t.workers[i] == s.workers[i];
      t, more := OthersFinish(ids, t, more, k + 1);
    }
  }

  /** Any repeated id in a tick's list can lose a handle: the manager stops and it was never closed. */
  lemma DuplicateIdsLeak(ids: seq<Sid>, i: nat, j: nat) returns (s: State, acts: seq<Action>)
    requires i < j < |ids| && ids[i] == ids[j]
    ensures Reaches(acts, ids, s) && s.poll.Stopped? && |s.owners| == 2 && s.closed[0] == 0
  {
    hide Reaches;
    var x := ids[i];
    s, acts := BothStart(ids, i, j);
    s, acts := OthersFinish(ids, s, acts, 0);
    s, acts := Snoc(ids, s, acts, CollectStale);
    assert s == State(map[x := 1], [], Closing(false), {}, [x, x], multiset{});
    s, acts := Snoc(ids, s, acts, EndClosing);
    s, acts := Snoc(ids, s, acts, Stop);
    assert s.closing == {1} by { assert x in map[x := 1]; }
    s, acts := Snoc(ids, s, acts, CloseOne(1));
    s, acts := Snoc(ids, s, acts, EndClosing);
  }

  /** Runs whose ticks list these ids can stop with an unclosed handle if and only if an id is repeated. */
  lemma LeakPossibleIff(ids: seq<Sid>)
    ensures (exists acts, s, h ::
               Reaches(acts, ids, s) && s.poll.Stopped? && 0 <= h < |s.owners| && s.closed[h] != 1)
            <==> !Distinct(ids)
  {
    if !Distinct(ids) {
      var i, j :| 0 <= i < j < |ids| && ids[i] == ids[j];
      var s, acts := DuplicateIdsLeak(ids, i, j);
      assert 0 <= 0 < |s.owners| && s.closed[0] != 1;
    } else {
      forall acts, s, h | Reaches(acts, ids, s) && s.poll.Stopped? && 0 <= h < |s.owners| ensures s.closed[h] == 1 {
        StopClosesEverythingOnce(acts, h);
      }
    }
  }

  // ---------------------------------------------------------------- default schedules

  datatype Schedule = Schedule(id: Sid, channel: string)

  function DefaultFor(channel: string): Schedule {
    Schedule("default-" + channel, channel)
  }

  function Covered(schedules: seq<Schedule>): set<string> {
    set s | s in schedules :: s.channel
  }

  function Uncovered(channels: seq<string>, covered: set<string>): (r: seq<string>) {
    if channels == [] then []
    else (if channels[0] in covered then [] else [channels[0]]) + Uncovered(channels[1..], covered)
  }

  function Defaults(channels: seq<string>): (r: seq<Schedule>)
    ensures |r| == |channels| && forall i :: 0 <= i < |r| ==> r[i] == DefaultFor(channels[i])
  {
    seq(|channels|, i requires 0 <= i < |channels| => DefaultFor(channels[i]))
  }

  method CoveredChannels(schedules: seq<Schedule>) returns (covered: set<string>)
    ensures covered == Covered(schedules)
  {
    covered := {};
    for i := 0 to |schedules|
      invariant covered == Covered(schedules[..i])
    {
      assert schedules[..i + 1] == schedules[..i] + [schedules[i]];
      covered := covered + {schedules[i].channel};
    }
    assert schedules[..|schedules|] == schedules;
  }

  /** appendDefaults; `channels` is None when the channel source is absent or fails. */
  method AppendDefaults(schedules: seq<Schedule>, channels: Option<seq<string>>) returns (r: seq<Schedule>)
    ensures channels.None? ==> r == schedules
    ensures channels.Some? ==> r == schedules + Defaults(Uncovered(channels.value, Covered(schedules)))
  {
    r := schedules;
    if channels.None? {
      return;
    }
    var covered := CoveredChannels(schedules);
    var cs := channels.value;
    ghost var seen: seq<string> := [];
    assert cs[0..] == cs;
    hide Uncovered, Covered, Defaults, DefaultFor;
    assert Defaults([]) == [];
    for i := 0 to |cs|
      invariant r == schedules + Defaults(seen)
      invariant seen + Uncovered(cs[i..], covered) == Uncovered(cs, covered)
    {
      UncoveredStep(seen, cs, covered, i);
      if cs[i] in covered {
        continue;
      }
      DefaultsSnoc(schedules, seen, cs[i]);
      seen := seen + [cs[i]];
      r := r + [DefaultFor(cs[i])];
    }
    UncoveredNone(seen, cs, covered);
  }

  lemma UncoveredNone(acc: seq<string>, cs: seq<string>, covered: set<string>)
    ensures acc + Uncovered(cs[|cs|..], covered) == acc
  {}

  lemma {:induction false} UncoveredHas(cs: seq<string>, covered: set<string>, c: string)
    ensures c in Uncovered(cs, covered) <==> c in cs && c !in covered
  {
    if cs != [] {
      UncoveredHas(cs[1..], covered, c);
      assert c in cs <==> c == cs[0] || c in cs[1..];
    }
  }

  /** With defaults appended every listed channel is recorded by some schedule, and a channel that has a
      schedule of its own gets no default. */
  lemma EveryChannelRecorded(schedules: seq<Schedule>, channels: seq<string>, c: string)
    requires c in channels
    ensures var all := schedules + Defaults(Uncovered(channels, Covered(schedules)));
            && (exists i :: 0 <= i < |all| && all[i].channel == c)
            && ((exists s :: s in schedules && s.channel == c) ==>
                  forall i :: |schedules| <= i < |all| ==> all[i].channel != c)
  {
    var extra := Uncovered(channels, Covered(schedules));
    var all := schedules + Defaults(extra);
    UncoveredHas(channels, Covered(schedules), c);
    hide Uncovered;
    if c in extra {
      var k :| 0 <= k < |extra| && extra[k] == c;
      assert all[|schedules| + k].channel == c;
    } else {
      var s :| s in schedules && s.channel == c;
      var i :| 0 <= i < |schedules| && schedules[i] == s;
      assert all[i].channel == c;
    }
  }

  lemma DefaultsSnoc(schedules: seq<Schedule>, seen: seq<string>, c: string)
    ensures schedules + Defaults(seen + [c]) == schedules + Defaults(seen) + [DefaultFor(c)]
  {
    assert Defaults(seen + [c]) == Defaults(seen) + [DefaultFor(c)];
  }

  lemma UncoveredStep(acc: seq<string>, cs: seq<string>, covered: set<string>, i: nat)
    requires i < |cs|
    ensures acc + Uncovered(cs[i..], covered)
            == (if cs[i] in covered then acc else acc + [cs[i]]) + Uncovered(cs[i + 1..], covered)
  {
    assert cs[i..][1..] == cs[i + 1..];
  }

  function IdsOf(schedules: seq<Schedule>): (ids: seq<Sid>)
    ensures |ids| == |schedules| && forall i :: 0 <= i < |ids| ==> ids[i] == schedules[i].id
  {
    seq(|schedules|, i requires 0 <= i < |schedules| => schedules[i].id)
  }

  lemma DefaultIdInjective(a: string, b: string)
    ensures DefaultFor(a).id == DefaultFor(b).id ==> a == b
  {
    assert DefaultFor(a).id[8..] == a && DefaultFor(b).id[8..] == b;
  }

  /** When a tick's schedule list has distinct ids: exactly if the explicit ones are distinct, no
      uncovered channel is listed twice, and no explicit id collides with a default one. */
  lemma DistinctAfterDefaults(schedules: seq<Schedule>, extra: seq<string>)
    ensures Distinct(IdsOf(schedules + Defaults(extra))) <==>
            && Distinct(IdsOf(schedules))
            && Distinct(extra)
            && ApartFromDefaults(schedules, extra)
  {
    var ids := IdsOf(schedules + Defaults(extra));
    if Distinct(ids) { ListedApart(schedules, extra); }
    if Distinct(IdsOf(schedules)) && Distinct(extra) && ApartFromDefaults(schedules, extra) {
      forall i, j | 0 <= i < j < |ids| ensures ids[i] != ids[j] { PairApart(schedules, extra, i, j); }
    }
  }

  ghost predicate ApartFromDefaults(schedules: seq<Schedule>, extra: seq<string>) {
    forall i, j :: 0 <= i < |schedules| && 0 <= j < |extra| ==> schedules[i].id != DefaultFor(extra[j]).id
  }

  lemma ListedId(schedules: seq<Schedule>, extra: seq<string>, i: nat)
    requires i < |schedules| + |extra|
    ensures |IdsOf(schedules + Defaults(extra))| == |schedules| + |extra|
    ensures IdsOf(schedules + Defaults(extra))[i] ==
            if i < |schedules| then IdsOf(schedules)[i] else DefaultFor(extra[i - |schedules|]).id
  {}

  lemma ListedApart(schedules: seq<Schedule>, extra: seq<string>)
    requires Distinct(IdsOf(schedules + Defaults(extra)))
    ensures Distinct(IdsOf(schedules)) && Distinct(extra) && ApartFromDefaults(schedules, extra)
  {
    hide IdsOf, Defaults, DefaultFor;
    var n := |schedules|;
    forall i, j | 0 <= i < j < n ensures IdsOf(schedules)[i] != IdsOf(schedules)[j] {
      ListedId(schedules, extra, i);
      ListedId(schedules, extra, j);
    }
    forall i, j | 0 <= i < j < |extra| ensures extra[i] != extra[j] {
      ListedId(schedules, extra, n + i);
      ListedId(schedules, extra, n + j);
    }
    forall i, j | 0 <= i < n && 0 <= j < |extra| ensures schedules[i].id != DefaultFor(extra[j]).id {
      ListedId(schedules, extra, i);
      ListedId(schedules, extra, n + j);
    }
  }

  lemma PairApart(schedules: seq<Schedule>, extra: seq<string>, i: nat, j: nat)
    requires Distinct(IdsOf(schedules)) && Distinct(extra) && ApartFromDefaults(schedules, extra)
    requires i < j < |schedules| + |extra|
    ensures var ids := IdsOf(schedules + Defaults(extra)); j < |ids| && ids[i] != ids[j]
  {
    hide IdsOf, Defaults, DefaultFor;
    var n := |schedules|;
    ListedId(schedules, extra, i);
    ListedId(schedules, extra, j);
    if i >= n {
      DefaultIdInjective(extra[i - n], extra[j - n]);
    } else if j >= n {
      assert schedules[i].id != DefaultFor(extra[j - n]).id;
    }
  }
}
