/** The WebSocket stream session (pkg/edgeview/ws_stream.go, TrackConsumer in pkg/edgeview/stream.go).

The session owns at most one playback hub with its consumer handle, or one live handle together with
one viewer count. Hubs and handles are numbered as they are obtained; `closes` counts Close and Stop
calls. Outcomes of external calls are parameters of the commands.
*/
module StreamSession {
  import opened Wrappers
  import opened Recording
  import opened TextTime
  import opened PlaybackStart

  type Resource = nat

  datatype Reply =
    | Seeked(number: int, mode: Mode, at: Time, gap: bool)
    | ErrorReply

  /** What the session owns, and the world it owns it in. */
  datatype Own = Own(
    playSM: Option<Resource>,
    consumer: Option<Resource>,
    liveMode: bool,
    liveHandle: Option<Resource>,
    untrack: bool,
    obtained: nat,                 // resources 0 .. obtained - 1 have been handed out
    closes: multiset<Resource>,
    viewers: int,
    leaked: set<Resource>)         // history: live handles overwritten while held

  datatype Session = Session(
    own: Own,
    lastSeqSeen: int,
    lastSeekTime: Time,
    replies: seq<Reply>,
    accepted: seq<int>,            // history: positive sequence numbers that passed the first check
    lateStale: nat)                // history: how often the second stale check fired

  /** The MSE writer can be built; the hub's Consume succeeds. */
  datatype Attach = Attach(built: bool, consumed: bool)

  datatype SeekEnv = SeekEnv(resolved: Resolution, now: Time, hubStarts: bool, attach: Attach)

  datatype Target = Now | Unparsable | At(t: Time)

  datatype Cmd =
    | Start(attach: Attach)
    | Seek(target: Target, number: int, env: SeekEnv)
    | Skip(offset: Option<Time>, number: int, env: SeekEnv)
    | Ignored        // pause, resume, unknown values and other message types

  // ---------------------------------------------------------------- operations

  function Drop(closes: multiset<Resource>, r: Option<Resource>): multiset<Resource> {
    if r.Some? then closes + multiset{r.value} else closes
  }

  function Stop(s: Own): (t: Own) {
    Own(None, None, false, None, false, s.obtained,
        Drop(Drop(Drop(s.closes, s.consumer), s.liveHandle), s.playSM),
        if s.untrack then s.viewers - 1 else s.viewers,
        s.leaked)
  }

  function StartLive(s: Own): (t: Own) {
    s.(liveMode := true, playSM := None, consumer := None, liveHandle := None, untrack := false)
  }

  function StartRecorded(s: Own, hubStarts: bool): (r: (Own, bool)) {
    if !hubStarts then (s, false)
    else
      (s.(playSM := Some(s.obtained), obtained := s.obtained + 1, liveMode := false,
          consumer := None, liveHandle := None, untrack := false), true)
  }

  /** attachConsumer. A playback hub takes one consumer; the live hub takes any number. */
  function AttachConsumer(s: Own, a: Attach): (r: (Own, bool)) {
    if !a.built then (s, false)
    else if s.liveMode then
      if !a.consumed then (s, false)
      else
        (s.(liveHandle := Some(s.obtained), obtained := s.obtained + 1, untrack := true, viewers := s.viewers + 1,
            leaked := if s.liveHandle.Some? then s.leaked + {s.liveHandle.value} else s.leaked), true)
    else if s.playSM.None? || s.consumer.Some? || !a.consumed then (s, false)
    else (s.(consumer := Some(s.obtained), obtained := s.obtained + 1), true)
  }

  datatype Landing = Landing(at: Time, mode: Mode, gap: bool)

  function ResolveAndStart(s: Own, t: Time, env: SeekEnv): (r: (Own, Option<Landing>)) {
    if env.resolved.Err? && t <= env.now then (s, None)
    else
      var (at, mode) := if env.resolved.Err? then (ZERO_TIME, Live) else (env.resolved.at, env.resolved.mode);
      if mode.Live? then (StartLive(s), Some(Landing(at, mode, false)))
      else
        var (u, ok) := StartRecorded(s, env.hubStarts);
        if !ok then (u, None) else (u, Some(Landing(at, mode, mode.FirstAvailable? || GapReported(t, at))))
  }

  /** Result of a command: the session and whether the read loop goes on. */
  type Outcome = (Session, bool)

  function ExecuteSeek(s: Session, t: Time, number: int, env: SeekEnv): (r: Outcome) {
    var (u, landing) := ResolveAndStart(Stop(s.own), t, env);
    if landing.None? then (s.(own := u), false)
    else if number > 0 && number < s.lastSeqSeen then (s.(own := Stop(u), lateStale := s.lateStale + 1), true)
    else
      var (v, ok) := AttachConsumer(u, env.attach);
      if !ok then (s.(own := v), false)
      else
        var l := landing.value;
        var at := if l.mode.Live? then env.now else l.at;
        (s.(own := v, replies := s.replies + [Seeked(number, l.mode, at, l.gap)], lastSeekTime := at), true)
  }

  predicate Superseded(s: Session, number: int) { number > 0 && number <= s.lastSeqSeen }

  function Accept(s: Session, number: int): Session {
    if number > 0 then s.(lastSeqSeen := number, accepted := s.accepted + [number]) else s
  }

  function SeekNow(s: Session, number: int, env: SeekEnv): (r: Outcome) {
    var (v, ok) := AttachConsumer(StartLive(Stop(s.own)), env.attach);
    if !ok then (s.(own := v), false)
    else (s.(own := v, replies := s.replies + [Seeked(number, Live, env.now, false)]), true)
  }

  function HandleSeek(s: Session, target: Target, number: int, env: SeekEnv): (r: Outcome) {
    if Superseded(s, number) then (s, true)
    else
      var u := Accept(s, number);
      match target
      case Now => SeekNow(u, number, env)
      case Unparsable => (u.(replies := u.replies + [ErrorReply]), true)
      case At(t) => ExecuteSeek(u, t, number, env)
  }

  function HandleSkip(s: Session, offset: Option<Time>, number: int, env: SeekEnv): (r: Outcome) {
    if offset.None? then (s.(replies := s.replies + [ErrorReply]), true)
    else if Superseded(s, number) then (s, true)
    else
      var base := if s.lastSeekTime == ZERO_TIME then env.now else s.lastSeekTime;
      ExecuteSeek(Accept(s, number), base + offset.value, number, env)
  }

  function Dispatch(s: Session, c: Cmd): (r: Outcome) {
    match c
    case Start(a) => var (v, ok) := AttachConsumer(s.own, a); (s.(own := v), ok)
    case Seek(target, n, env) => HandleSeek(s, target, n, env)
    case Skip(offset, n, env) => HandleSkip(s, offset, n, env)
    case Ignored => (s, true)
  }

  /** readLoop: commands in order until one fails. */
  function ReadLoop(s: Session, cmds: seq<Cmd>): (t: Session)
    decreases |cmds|
  {
    if cmds == [] then s
    else
      var (t, go) := Dispatch(s, cmds[0]);
      if go then ReadLoop(t, cmds[1..]) else t
  }

  /** The deferred stop when the connection ends. */
  function Close(s: Session): (t: Session) { s.(own := Stop(s.own)) }

  function Fresh(viewers: int): Own {
    Own(None, None, false, None, false, 0, multiset{}, viewers, {})
  }

  /** session.start: live without a start time, otherwise as resolved; None when it fails. */
  function Begin(viewers: int, from: Option<Time>, resolved: Resolution, hubStarts: bool): (r: Option<Session>) {
    if from.Some? && resolved.Err? then None
    else if from.None? || resolved.mode.Live? then Some(Session(StartLive(Fresh(viewers)), 0, ZERO_TIME, [], [], 0))
    else
      var (t, ok) := StartRecorded(Fresh(viewers), hubStarts);
      if ok then Some(Session(t, 0, resolved.at, [], [], 0)) else None
  }

  // ---------------------------------------------------------------- the session as a class

  class Stream {
    var playSM: Option<Resource>
    var consumer: Option<Resource>
    var liveMode: bool
    var liveHandle: Option<Resource>
    var untrack: bool
    var lastSeqSeen: int
    var lastSeekTime: Time
    var obtained: nat
    var closes: multiset<Resource>
    var viewers: int
    var replies: seq<Reply>
    var accepted: seq<int>
    var lateStale: nat
    var leaked: set<Resource>

    ghost function Owned(): Own
      reads this
    {
      Own(playSM, consumer, liveMode, liveHandle, untrack, obtained, closes, viewers, leaked)
    }

    ghost function Model(): Session
      reads this
    {
      Session(Owned(), lastSeqSeen, lastSeekTime, replies, accepted, lateStale)
    }

    method Obtain() returns (r: Resource)
      modifies this`obtained
      ensures r == old(obtained) && obtained == old(obtained) + 1
    {
      r, obtained := obtained, obtained + 1;
    }

    method StopSession()
      modifies this`playSM, this`consumer, this`liveMode, this`liveHandle, this`untrack, this`closes, this`viewers
      ensures Owned() == Stop(old(Owned()))
    {
      hide Drop;
      var c, h, sm, u := TakeAll();
      closes := Drop(Drop(closes, c), h);
      viewers := if u then viewers - 1 else viewers;
      closes := Drop(closes, sm);
    }

    /** Under the lock: what the session held, with its fields cleared. */
    method TakeAll() returns (c: Option<Resource>, h: Option<Resource>, sm: Option<Resource>, u: bool)
      modifies this`playSM, this`consumer, this`liveMode, this`liveHandle, this`untrack
      ensures c == old(consumer) && h == old(liveHandle) && sm == old(playSM) && u == old(untrack)
      ensures playSM.None? && consumer.None? && liveHandle.None? && !liveMode && !untrack
    {
      c, h, sm, u := consumer, liveHandle, playSM, untrack;
      consumer, liveHandle, playSM, liveMode, untrack := None, None, None, false, false;
    }

    method GoLive()
      modifies this`playSM, this`consumer, this`liveMode, this`liveHandle, this`untrack
      ensures Owned() == StartLive(old(Owned()))
    {
      liveMode, playSM, consumer, liveHandle, untrack := true, None, None, None, false;
    }

    method StartRecordedAt(hubStarts: bool) returns (ok: bool)
      modifies this`playSM, this`consumer, this`liveMode, this`liveHandle, this`untrack, this`obtained, this`closes, this`viewers, this`leaked
      ensures (Owned(), ok) == StartRecorded(old(Owned()), hubStarts)
    {
      if !hubStarts {
        return false;
      }
      var sm := Obtain();
      playSM, liveMode, liveHandle, untrack, consumer := Some(sm), false, None, false, None;
      ok := true;
    }

    method AttachNow(a: Attach) returns (ok: bool)
      modifies this`playSM, this`consumer, this`liveMode, this`liveHandle, this`untrack, this`obtained, this`closes, this`viewers, this`leaked
      ensures (Owned(), ok) == AttachConsumer(old(Owned()), a)
    {
      if !a.built {
        return false;
      }
      if liveMode {
        if !a.consumed {
          return false;
        }
        var h := Obtain();
        viewers := viewers + 1;
        if liveHandle.Some? {
          leaked := leaked + {liveHandle.value};
        }
        liveHandle, untrack := Some(h), true;
        return true;
      }
      if playSM.None? {
        return false;
      }
      if consumer.Some? || !a.consumed {
        return false;
      }
      var h := Obtain();
      consumer := Some(h);
      ok := true;
    }

    method ResolveAndStartSeek(t: Time, env: SeekEnv) returns (landing: Option<Landing>)
      modifies this`playSM, this`consumer, this`liveMode, this`liveHandle, this`untrack, this`obtained, this`closes, this`viewers, this`leaked
      ensures (Owned(), landing) == ResolveAndStart(old(Owned()), t, env)
    {
      var at, mode := ZERO_TIME, Live;
      if env.resolved.Ok? {
        at, mode := env.resolved.at, env.resolved.mode;
      } else if t <= env.now {
        return None;
      }
      match mode {
        case Live =>
          GoLive();
          return Some(Landing(at, mode, false));
        case FirstAvailable =>
          var ok := StartRecordedAt(env.hubStarts);
          return if ok then Some(Landing(at, mode, true)) else None;
        case Recorded =>
          var gap := at - t >= PlaybackStart.GAP_THRESHOLD;
          var ok := StartRecordedAt(env.hubStarts);
          return if ok then Some(Landing(at, mode, gap)) else None;
      }
    }

    method Execute(t: Time, n: int, env: SeekEnv) returns (go: bool)
      modifies this
      ensures (Model(), go) == ExecuteSeek(old(Model()), t, n, env)
    {
      hide Stop, ResolveAndStart, AttachConsumer;
      StopSession();
      var landing := ResolveAndStartSeek(t, env);
      if landing.None? {
        return false;
      }
      if n > 0 && n < lastSeqSeen {
        StopSession();
        lateStale := lateStale + 1;
        return true;
      }
      var ok := AttachNow(env.attach);
      if !ok {
        return false;
      }
      var at := if landing.value.mode.Live? then env.now else landing.value.at;
      replies := replies + [Seeked(n, landing.value.mode, at, landing.value.gap)];
      lastSeekTime := at;
      go := true;
    }

    method SeekCommand(target: Target, n: int, env: SeekEnv) returns (go: bool)
      modifies this
      ensures (Model(), go) == HandleSeek(old(Model()), target, n, env)
    {
      hide Stop, StartLive, ExecuteSeek, AttachConsumer;
      if n > 0 && n <= lastSeqSeen {
        return true;
      }
      if n > 0 {
        lastSeqSeen, accepted := n, accepted + [n];
      }
      match target {
        case Now =>
          StopSession();
          GoLive();
          var ok := AttachNow(env.attach);
          if !ok {
            return false;
          }
          replies := replies + [Seeked(n, Live, env.now, false)];
          return true;
        case Unparsable =>
          replies := replies + [ErrorReply];
          return true;
        case At(t) =>
          go := Execute(t, n, env);
      }
    }

    method SkipCommand(offset: Option<Time>, n: int, env: SeekEnv) returns (go: bool)
      modifies this
      ensures (Model(), go) == HandleSkip(old(Model()), offset, n, env)
    {
      hide ExecuteSeek;
      if offset.None? {
        replies := replies + [ErrorReply];
        return true;
      }
      var base := lastSeekTime;
      if n > 0 && n <= lastSeqSeen {
        return true;
      }
      if n > 0 {
        lastSeqSeen, accepted := n, accepted + [n];
      }
      if base == ZERO_TIME {
        base := env.now;
      }
      go := Execute(base + offset.value, n, env);
    }

    method Serve(cmds: seq<Cmd>)
      modifies this
      ensures Model() == Close(ReadLoop(old(Model()), cmds))
    {
      hide HandleSeek, HandleSkip, AttachConsumer;
      assert cmds[0..] == cmds;
      var i, go := 0, true;
      while i < |cmds| && go
        invariant 0 <= i <= |cmds|
        invariant go ==> ReadLoop(Model(), cmds[i..]) == ReadLoop(old(Model()), cmds)
        invariant !go ==> Model() == ReadLoop(old(Model()), cmds)
        decreases |cmds| - i
      {
        assert cmds[i..][1..] == cmds[i + 1..];
        match cmds[i] {
          case Start(a) => go := AttachNow(a);
          case Seek(target, n, env) => go := SeekCommand(target, n, env);
          case Skip(offset, n, env) => go := SkipCommand(offset, n, env);
          case Ignored =>
        }
        i := i + 1;
      }
      StopSession();
    }
  }

  // ---------------------------------------------------------------- ownership

  ghost predicate Held(s: Own, r: Resource) {
    s.playSM == Some(r) || s.consumer == Some(r) || s.liveHandle == Some(r)
  }

  /** Every resource handed out is closed once, held, or leaked, and only one of these. */
  ghost predicate Accounted(s: Own, r: Resource) {
    && s.closes[r] <= 1
    && (s.closes[r] == 0 <==> Held(s, r) || r in s.leaked)
    && !(Held(s, r) && r in s.leaked)
  }

  ghost predicate Inv(s: Own, viewers0: int) {
    && (s.liveMode ==> s.playSM.None? && s.consumer.None?)
    && (s.liveHandle.Some? <==> s.untrack)
    && (s.liveHandle.Some? ==> s.liveMode)
    && (s.consumer.Some? ==> s.playSM.Some? && s.playSM != s.consumer)
    && (forall r: nat :: Held(s, r) || r in s.leaked || r in s.closes ==> r < s.obtained)
    && (forall r: nat :: r < s.obtained ==> Accounted(s, r))
    && s.viewers == viewers0 + |s.leaked| + (if s.untrack then 1 else 0)
  }

  ghost predicate HoldsNothing(s: Own) {
    s.playSM.None? && s.consumer.None? && s.liveHandle.None?
  }

  lemma StopKeeps(s: Own, v: int)
    requires Inv(s, v)
    ensures Inv(Stop(s), v) && HoldsNothing(Stop(s))
  {
    var t := Stop(s);
    assert s.playSM.Some? ==> Held(s, s.playSM.value);
    assert s.consumer.Some? ==> Held(s, s.consumer.value);
    assert s.liveHandle.Some? ==> Held(s, s.liveHandle.value);
    forall r: nat | r < t.obtained ensures Accounted(t, r) { assert Accounted(s, r); }
  }

  lemma StartLiveKeeps(s: Own, v: int)
    requires Inv(s, v) && HoldsNothing(s)
    ensures Inv(StartLive(s), v)
  {
    var t := StartLive(s);
    forall r: nat | r < t.obtained ensures Accounted(t, r) { assert Accounted(s, r); }
  }

  lemma StartRecordedKeeps(s: Own, v: int, hubStarts: bool)
    requires Inv(s, v) && HoldsNothing(s)
    ensures Inv(StartRecorded(s, hubStarts).0, v)
  {
    var t := StartRecorded(s, hubStarts).0;
    forall r: nat | r < t.obtained ensures Accounted(t, r) { if r < s.obtained { assert Accounted(s, r); } }
  }

  lemma AttachKeeps(s: Own, v: int, a: Attach)
    requires Inv(s, v)
    ensures Inv(AttachConsumer(s, a).0, v)
  {
    var t := AttachConsumer(s, a).0;
    if s.liveHandle.Some? { assert Held(s, s.liveHandle.value); assert Accounted(s, s.liveHandle.value); }
    if s.playSM.Some? { assert Held(s, s.playSM.value); }
    forall r: nat | r < t.obtained ensures Accounted(t, r) { if r < s.obtained { assert Accounted(s, r); } }
    forall r: nat | Held(t, r) || r in t.leaked || r in t.closes ensures r < t.obtained {
      if r != s.obtained { assert Held(s, r) || r in s.leaked || r in s.closes; }
    }
  }

  lemma ResolveKeeps(s: Own, v: int, t: Time, env: SeekEnv)
    requires Inv(s, v) && HoldsNothing(s)
    ensures Inv(ResolveAndStart(s, t, env).0, v)
  {
    StartLiveKeeps(s, v);
    StartRecordedKeeps(s, v, env.hubStarts);
    hide Inv;
  }

  lemma ExecuteKeeps(s: Session, v: int, t: Time, n: int, env: SeekEnv)
    requires Inv(s.own, v)
    ensures Inv(ExecuteSeek(s, t, n, env).0.own, v)
  {
    hide Inv, Stop, ResolveAndStart, AttachConsumer;
    StopKeeps(s.own, v);
    ResolveKeeps(Stop(s.own), v, t, env);
    var u := ResolveAndStart(Stop(s.own), t, env).0;
    StopKeeps(u, v);
    AttachKeeps(u, v, env.attach);
  }

  lemma DispatchKeeps(s: Session, v: int, c: Cmd)
    requires Inv(s.own, v)
    ensures Inv(Dispatch(s, c).0.own, v)
  {
    hide Inv, Stop, StartLive, ExecuteSeek, AttachConsumer;
    match c
    case Start(a) => AttachKeeps(s.own, v, a);
    case Seek(target, n, env) =>
      StopKeeps(s.own, v);
      StartLiveKeeps(Stop(s.own), v);
      AttachKeeps(StartLive(Stop(s.own)), v, env.attach);
      if target.At? { ExecuteKeeps(Accept(s, n), v, target.t, n, env); }
    case Skip(offset, n, env) =>
      if offset.Some? {
        var base := if s.lastSeekTime == ZERO_TIME then env.now else s.lastSeekTime;
        ExecuteKeeps(Accept(s, n), v, base + offset.value, n, env);
      }
    case Ignored =>
  }

  lemma {:induction false} RunKeeps(s: Session, v: int, cmds: seq<Cmd>)
    requires Inv(s.own, v)
    ensures Inv(ReadLoop(s, cmds).own, v)
    decreases |cmds|
  {
    if cmds != [] {
      DispatchKeeps(s, v, cmds[0]);
      hide Inv, Dispatch;
      RunKeeps(Dispatch(s, cmds[0]).0, v, cmds[1..]);
    }
  }

  lemma BeginKeeps(v: int, from: Option<Time>, resolved: Resolution, hubStarts: bool)
    ensures Begin(v, from, resolved, hubStarts).Some? ==> Inv(Begin(v, from, resolved, hubStarts).value.own, v)
  {
    assert Inv(Fresh(v), v) && HoldsNothing(Fresh(v));
    StartLiveKeeps(Fresh(v), v);
    StartRecordedKeeps(Fresh(v), v, hubStarts);
  }

  /** At every point of every session: live mode excludes a playback hub, a live handle is held exactly
      while a viewer is counted for it, and a consumer handle only on a playback hub. */
  lemma ModesExclude(v: int, from: Option<Time>, resolved: Resolution, hubStarts: bool, cmds: seq<Cmd>)
    requires Begin(v, from, resolved, hubStarts).Some?
    ensures var s := ReadLoop(Begin(v, from, resolved, hubStarts).value, cmds).own;
            && (s.liveMode ==> s.playSM.None? && s.consumer.None?)
            && (s.liveHandle.Some? <==> s.untrack)
            && (s.liveHandle.Some? ==> s.liveMode)
            && (s.consumer.Some? ==> s.playSM.Some?)
  {
    hide Begin, ReadLoop;
    BeginKeeps(v, from, resolved, hubStarts);
    RunKeeps(Begin(v, from, resolved, hubStarts).value, v, cmds);
  }

  /** After the final stop a resource was closed exactly once unless it is a live handle that a repeated
      start overwrote; each of those also leaves one viewer counted for good. */
  lemma FinalAccount(v: int, from: Option<Time>, resolved: Resolution, hubStarts: bool, cmds: seq<Cmd>, r: Resource)
    requires Begin(v, from, resolved, hubStarts).Some?
    ensures var s := Close(ReadLoop(Begin(v, from, resolved, hubStarts).value, cmds)).own;
            && (r < s.obtained ==> s.closes[r] == if r in s.leaked then 0 else 1)
            && s.viewers == v + |s.leaked|
  {
    hide Begin, ReadLoop;
    BeginKeeps(v, from, resolved, hubStarts);
    var b := Begin(v, from, resolved, hubStarts).value;
    RunKeeps(b, v, cmds);
    StopKeeps(ReadLoop(b, cmds).own, v);
    var s := Close(ReadLoop(b, cmds)).own;
    if r < s.obtained { assert Accounted(s, r); }
  }

  // ---------------------------------------------------------------- the start command

  /** The documented protocol: start comes before any other command that attaches, and only once. */
  ghost predicate StartOnceFirst(cmds: seq<Cmd>) {
    forall i, j :: 0 <= i < j < |cmds| && cmds[j].Start? ==> cmds[i].Ignored?
  }

  /** A start that attaches to the live hub while a live handle is held. */
  predicate Reattaches(s: Session, c: Cmd) {
    c.Start? && c.attach.built && c.attach.consumed && s.own.liveMode && s.own.liveHandle.Some?
  }

  ghost predicate NeverReattaches(s: Session, cmds: seq<Cmd>)
    decreases |cmds|
  {
    cmds == [] || (!Reattaches(s, cmds[0]) && (Dispatch(s, cmds[0]).1 ==> NeverReattaches(Dispatch(s, cmds[0]).0, cmds[1..])))
  }

  lemma SeekDoesNotLeak(s: Session, t: Time, n: int, env: SeekEnv)
    ensures ExecuteSeek(s, t, n, env).0.own.leaked == s.own.leaked
  {
    ResolveHoldsNoLive(Stop(s.own), t, env);
    AttachLeaksNothing(ResolveAndStart(Stop(s.own), t, env).0, env.attach);
    hide ResolveAndStart, AttachConsumer, Drop;
  }

  lemma ResolveHoldsNoLive(s: Own, t: Time, env: SeekEnv)
    ensures ResolveAndStart(s, t, env).0.leaked == s.leaked
    ensures s.liveHandle.None? ==> ResolveAndStart(s, t, env).0.liveHandle.None?
  {
    hide GapReported;
  }

  lemma AttachLeaksNothing(s: Own, a: Attach)
    requires s.liveHandle.None?
    ensures AttachConsumer(s, a).0.leaked == s.leaked
  {}

  lemma DispatchLeaks(s: Session, c: Cmd, v: int)
    requires Inv(s.own, v)
    ensures s.own.leaked <= Dispatch(s, c).0.own.leaked
    ensures Dispatch(s, c).0.own.leaked == s.own.leaked <==> !Reattaches(s, c)
  {
    hide ExecuteSeek, Stop, StartLive;
    match c
    case Start(a) =>
      if s.own.liveHandle.Some? {
        assert Held(s.own, s.own.liveHandle.value);
        assert Accounted(s.own, s.own.liveHandle.value);
      }
    case Seek(target, n, env) =>
      if target.At? { SeekDoesNotLeak(Accept(s, n), target.t, n, env); }
      SeekNowDoesNotLeak(Accept(s, n), n, env);
    case Skip(offset, n, env) =>
      if offset.Some? {
        var base := if s.lastSeekTime == ZERO_TIME then env.now else s.lastSeekTime;
        SeekDoesNotLeak(Accept(s, n), base + offset.value, n, env);
      }
    case Ignored =>
  }

  lemma SeekNowDoesNotLeak(s: Session, n: int, env: SeekEnv)
    ensures SeekNow(s, n, env).0.own.leaked == s.own.leaked
  {}

  /** Over a whole session nothing is lost if and only if no start reattaches to the live hub. */
  lemma {:induction false} NoLeakIff(s: Session, cmds: seq<Cmd>, v: int)
    requires Inv(s.own, v)
    ensures s.own.leaked <= ReadLoop(s, cmds).own.leaked
    ensures ReadLoop(s, cmds).own.leaked == s.own.leaked <==> NeverReattaches(s, cmds)
    decreases |cmds|
  {
    if cmds != [] {
      DispatchLeaks(s, cmds[0], v);
      DispatchKeeps(s, v, cmds[0]);
      hide Inv, Dispatch;
      NoLeakIff(Dispatch(s, cmds[0]).0, cmds[1..], v);
    }
  }

  lemma {:induction false} NoStartNoReattach(s: Session, cmds: seq<Cmd>)
    requires forall c :: c in cmds ==> !c.Start?
    ensures NeverReattaches(s, cmds)
    decreases |cmds|
  {
    if cmds != [] {
      assert cmds[0] in cmds;
      NoStartNoReattach(Dispatch(s, cmds[0]).0, cmds[1..]);
    }
  }

  lemma {:induction false} ProtocolNeverReattaches(s: Session, cmds: seq<Cmd>)
    requires s.own.liveHandle.None? && StartOnceFirst(cmds)
    ensures NeverReattaches(s, cmds)
    decreases |cmds|
  {
    if cmds != [] {
      var rest := cmds[1..];
      if cmds[0].Ignored? {
        forall i, j | 0 <= i < j < |rest| && rest[j].Start? ensures rest[i].Ignored? {
          assert cmds[j + 1] == rest[j] && cmds[i + 1] == rest[i];
        }
        ProtocolNeverReattaches(s, rest);
      } else {
        forall c | c in rest ensures !c.Start? {
          var j :| 0 <= j < |rest| && rest[j] == c;
          assert cmds[j + 1] == c;
        }
        NoStartNoReattach(Dispatch(s, cmds[0]).0, rest);
      }
    }
  }

  /** Seen from outside: every resource of a session is closed exactly once if and only if no start
      reattaches, and the viewer count is restored if and only if none does. */
  lemma EverythingReturnedIff(v: int, from: Option<Time>, resolved: Resolution, hubStarts: bool, cmds: seq<Cmd>)
    requires Begin(v, from, resolved, hubStarts).Some?
    ensures var b := Begin(v, from, resolved, hubStarts).value;
            var s := Close(ReadLoop(b, cmds)).own;
            && ((forall r: nat :: r < s.obtained ==> s.closes[r] == 1) <==> NeverReattaches(b, cmds))
            && (s.viewers == v <==> NeverReattaches(b, cmds))
  {
    var b := Begin(v, from, resolved, hubStarts).value;
    assert b.own.leaked == {};
    hide Begin, ReadLoop, NeverReattaches;
    BeginKeeps(v, from, resolved, hubStarts);
    NoLeakIff(b, cmds, v);
    RunKeeps(b, v, cmds);
    StopKeeps(ReadLoop(b, cmds).own, v);
    var s := Close(ReadLoop(b, cmds)).own;
    forall r: nat | r < s.obtained ensures s.closes[r] == if r in s.leaked then 0 else 1 {
      FinalAccount(v, from, resolved, hubStarts, cmds, r);
    }
    if s.leaked != {} {
      var r :| r in s.leaked;
      assert r < s.obtained && s.closes[r] == 0;
    }
  }

  /** With start sent once and first, every hub, consumer handle and live handle is closed exactly once
      and the viewer count returns to what it was, whatever fails on the way. */
  lemma SessionClosesEverythingOnce(v: int, from: Option<Time>, resolved: Resolution, hubStarts: bool, cmds: seq<Cmd>, r: Resource)
    requires Begin(v, from, resolved, hubStarts).Some? && StartOnceFirst(cmds)
    ensures var s := Close(ReadLoop(Begin(v, from, resolved, hubStarts).value, cmds)).own;
            (r < s.obtained ==> s.closes[r] == 1) && s.viewers == v
  {
    var b := Begin(v, from, resolved, hubStarts).value;
    assert b.own.liveHandle.None? && b.own.leaked == {};
    hide Begin, ReadLoop;
    BeginKeeps(v, from, resolved, hubStarts);
    ProtocolNeverReattaches(b, cmds);
    NoLeakIff(b, cmds, v);
    FinalAccount(v, from, resolved, hubStarts, cmds, r);
  }

  /** The rule is needed: two starts in live mode lose the first handle and a viewer. */
  lemma SecondStartLeaks(v: int)
    ensures var b := Begin(v, None, Err, true).value;
            var ok := Attach(true, true);
            var s := Close(ReadLoop(b, [Start(ok), Start(ok)])).own;
            s.viewers == v + 1 && s.obtained == 2 && s.closes[0] == 0
  {
    var b := Begin(v, None, Err, true).value;
    var ok := Attach(true, true);
    var cmds := [Start(ok), Start(ok)];
    assert cmds[1..] == [Start(ok)] && [Start(ok)][1..] == [];
    var s1 := Dispatch(b, Start(ok)).0;
    var s2 := Dispatch(s1, Start(ok)).0;
    assert ReadLoop(s1, [Start(ok)]) == ReadLoop(s2, []) == s2;
  }

  // ---------------------------------------------------------------- sequence numbers

  ghost predicate Increasing(ns: seq<int>) {
    forall i, j :: 0 <= i < j < |ns| ==> ns[i] < ns[j]
  }

  /** Positive sequence numbers on seeked replies increase. */
  ghost predicate RepliesIncrease(rs: seq<Reply>) {
    forall i, j :: 0 <= i < j < |rs| && rs[i].Seeked? && rs[j].Seeked? && rs[i].number > 0 && rs[j].number > 0 ==>
      rs[i].number < rs[j].number
  }

  ghost predicate SeqInv(s: Session) {
    && Increasing(s.accepted) && (forall n :: n in s.accepted ==> 0 < n <= s.lastSeqSeen)
    && RepliesIncrease(s.replies)
    && (forall r :: r in s.replies && r.Seeked? ==> r.number <= s.lastSeqSeen || r.number <= 0)
    && s.lastSeqSeen >= 0
    && s.lateStale == 0
  }

  /** Before a command's own reply: everything replied so far is older than its number. */
  ghost predicate Pending(s: Session, n: int) {
    && SeqInv(s)
    && (n > 0 ==> s.lastSeqSeen == n && forall r :: r in s.replies && r.Seeked? ==> r.number < n)
  }

  lemma AcceptPends(s: Session, n: int)
    requires SeqInv(s) && !Superseded(s, n)
    ensures Pending(Accept(s, n), n)
  {
    var u := Accept(s, n);
    forall i, j | 0 <= i < j < |u.accepted| ensures u.accepted[i] < u.accepted[j] {
      assert u.accepted[i] in s.accepted;
    }
    assert forall m :: m in u.accepted ==> m == n || m in s.accepted;
    forall r | r in u.replies && r.Seeked? && n > 0 ensures r.number < n { assert r in s.replies; }
  }

  lemma ReplyKeepsSeq(s: Session, n: int, r: Reply)
    requires Pending(s, n) && (r.Seeked? ==> r.number == n)
    ensures SeqInv(s.(replies := s.replies + [r]))
  {
    var rs := s.replies + [r];
    forall i, j | 0 <= i < j < |rs| && rs[i].Seeked? && rs[j].Seeked? && rs[i].number > 0 && rs[j].number > 0
      ensures rs[i].number < rs[j].number
    {
      assert rs[i] in s.replies;
    }
  }

  lemma ExecuteKeepsSeq(s: Session, t: Time, n: int, env: SeekEnv)
    requires Pending(s, n)
    ensures SeqInv(ExecuteSeek(s, t, n, env).0)
  {
    hide Stop, ResolveAndStart, AttachConsumer;
    var (u, landing) := ResolveAndStart(Stop(s.own), t, env);
    if landing.Some? {
      var at := if landing.value.mode.Live? then env.now else landing.value.at;
      ReplyKeepsSeq(s, n, Seeked(n, landing.value.mode, at, landing.value.gap));
    }
    hide Increasing, RepliesIncrease;
  }

  lemma DispatchKeepsSeq(s: Session, c: Cmd)
    requires SeqInv(s)
    ensures SeqInv(Dispatch(s, c).0)
  {
    hide ExecuteSeek, AttachConsumer, Stop, StartLive, Accept;
    match c
    case Start(a) =>
    case Seek(target, n, env) =>
      if !Superseded(s, n) {
        var u := Accept(s, n);
        AcceptPends(s, n);
        match target
        case Now => ReplyKeepsSeq(u, n, Seeked(n, Live, env.now, false));
        case Unparsable => ReplyKeepsSeq(u, n, ErrorReply);
        case At(t) => ExecuteKeepsSeq(u, t, n, env);
      }
    case Skip(offset, n, env) =>
      if offset.None? {
        ReplyKeepsSeq(s, 0, ErrorReply);
      } else if !Superseded(s, n) {
        AcceptPends(s, n);
        var base := if s.lastSeekTime == ZERO_TIME then env.now else s.lastSeekTime;
        ExecuteKeepsSeq(Accept(s, n), base + offset.value, n, env);
      }
    case Ignored =>
  }

  /** Over every command sequence: accepted numbers and the numbers on seeked replies strictly increase,
      and the second stale check never fires. */
  lemma {:induction false} SequenceNumbersIncrease(s: Session, cmds: seq<Cmd>)
    requires SeqInv(s)
    ensures var t := ReadLoop(s, cmds);
            Increasing(t.accepted) && RepliesIncrease(t.replies) && t.lateStale == 0
    decreases |cmds|
  {
    if cmds != [] {
      DispatchKeepsSeq(s, cmds[0]);
      hide SeqInv, Dispatch;
      SequenceNumbersIncrease(Dispatch(s, cmds[0]).0, cmds[1..]);
    }
  }

  lemma BeginSeqInv(v: int, from: Option<Time>, resolved: Resolution, hubStarts: bool)
    ensures Begin(v, from, resolved, hubStarts).Some? ==> SeqInv(Begin(v, from, resolved, hubStarts).value)
  {}

  /** So in every session, from its beginning. */
  lemma SessionNumbersIncrease(v: int, from: Option<Time>, resolved: Resolution, hubStarts: bool, cmds: seq<Cmd>)
    requires Begin(v, from, resolved, hubStarts).Some?
    ensures var t := ReadLoop(Begin(v, from, resolved, hubStarts).value, cmds);
            Increasing(t.accepted) && RepliesIncrease(t.replies) && t.lateStale == 0
  {
    hide Begin, ReadLoop;
    BeginSeqInv(v, from, resolved, hubStarts);
    SequenceNumbersIncrease(Begin(v, from, resolved, hubStarts).value, cmds);
  }

  /** An unparsable seek time is answered with an error and uses up its number; an unparsable skip offset
      is answered with an error, stale or not, and does not; neither disturbs the stream. */
  lemma BadTargetsAndNumbers(s: Session, n: int, env: SeekEnv)
    ensures n > s.lastSeqSeen >= 0 ==>
              var a := HandleSeek(s, Unparsable, n, env);
              && a.1 && a.0.lastSeqSeen == n && a.0.own == s.own && Superseded(a.0, n)
              && a.0.replies == s.replies + [ErrorReply] && a.0.lastSeekTime == s.lastSeekTime
    ensures HandleSkip(s, None, n, env) == (s.(replies := s.replies + [ErrorReply]), true)
  {}

  /** t came after s, and what it accepted and answered since carries numbers above s's last one. */
  ghost predicate Exceeds(s: Session, t: Session) {
    && s.lastSeqSeen <= t.lastSeqSeen
    && s.accepted <= t.accepted && (forall k :: |s.accepted| <= k < |t.accepted| ==> t.accepted[k] > s.lastSeqSeen)
    && s.replies <= t.replies
    && (forall k :: |s.replies| <= k < |t.replies| && t.replies[k].Seeked? && t.replies[k].number > 0 ==>
          t.replies[k].number > s.lastSeqSeen)
  }

  lemma ExceedsExecute(s: Session, u: Session, t: Time, n: int, env: SeekEnv)
    requires u == Accept(s, n) && !Superseded(s, n)
    ensures Exceeds(s, ExecuteSeek(u, t, n, env).0)
  {
    hide Stop, ResolveAndStart, AttachConsumer;
  }

  lemma ExceedsSeekNow(s: Session, n: int, env: SeekEnv)
    requires !Superseded(s, n)
    ensures Exceeds(s, SeekNow(Accept(s, n), n, env).0)
  {
    hide Stop, AttachConsumer, StartLive;
  }

  lemma ExceedsSeek(s: Session, target: Target, n: int, env: SeekEnv)
    ensures Exceeds(s, HandleSeek(s, target, n, env).0)
  {
    hide ExecuteSeek, SeekNow;
    if !Superseded(s, n) && !target.Unparsable? {
      hide Exceeds;
      ExceedsSeekNow(s, n, env);
      if target.At? { ExceedsExecute(s, Accept(s, n), target.t, n, env); }
    }
  }

  lemma ExceedsSkip(s: Session, offset: Option<Time>, n: int, env: SeekEnv)
    ensures Exceeds(s, HandleSkip(s, offset, n, env).0)
  {
    hide ExecuteSeek;
    if offset.Some? && !Superseded(s, n) {
      hide Exceeds;
      var base := if s.lastSeekTime == ZERO_TIME then env.now else s.lastSeekTime;
      ExceedsExecute(s, Accept(s, n), base + offset.value, n, env);
    }
  }

  lemma DispatchExceeds(s: Session, c: Cmd)
    ensures Exceeds(s, Dispatch(s, c).0)
  {
    hide HandleSeek, HandleSkip, AttachConsumer;
    match c
    case Seek(target, n, env) => ExceedsSeek(s, target, n, env);
    case Skip(offset, n, env) => ExceedsSkip(s, offset, n, env);
    case _ =>
  }

  lemma {:induction false} RunExceeds(s: Session, cmds: seq<Cmd>)
    ensures Exceeds(s, ReadLoop(s, cmds))
    decreases |cmds|
  {
    if cmds != [] {
      DispatchExceeds(s, cmds[0]);
      var t := Dispatch(s, cmds[0]).0;
      hide Dispatch;
      RunExceeds(t, cmds[1..]);
    }
  }

  /** After a seek with an unparsable time numbered n, whatever commands follow, none numbered n or less
      is accepted or answered. */
  lemma InvalidSeekRetiresNumbers(s: Session, n: int, env: SeekEnv, cmds: seq<Cmd>)
    requires n > s.lastSeqSeen >= 0
    ensures var u := HandleSeek(s, Unparsable, n, env).0; var t := ReadLoop(u, cmds);
            && |u.accepted| <= |t.accepted| && |u.replies| <= |t.replies|
            && (forall k :: |u.accepted| <= k < |t.accepted| ==> t.accepted[k] > n)
            && (forall k :: |u.replies| <= k < |t.replies| && t.replies[k].Seeked? ==>
                  t.replies[k].number <= 0 || t.replies[k].number > n)
  {
    RunExceeds(HandleSeek(s, Unparsable, n, env).0, cmds);
  }

  /** Only an answered seek or skip to a time moves the base of later skips: starting, going live with
      "now" and unparsable times leave it where it was, over any number of commands. */
  lemma {:induction false} SkipBaseSurvives(s: Session, cmds: seq<Cmd>)
    requires forall c :: c in cmds ==> !c.Skip? && (c.Seek? ==> !c.target.At?)
    ensures ReadLoop(s, cmds).lastSeekTime == s.lastSeekTime
    decreases |cmds|
  {
    if cmds != [] {
      assert cmds[0] in cmds;
      SkipBaseSurvives(Dispatch(s, cmds[0]).0, cmds[1..]);
    }
  }

  // ---------------------------------------------------------------- what a session answers

  /** How a session begins: live without a start time or beyond the recordings, with nothing held; on a
      playback hub from the resolved time otherwise; and not at all when the resolution or the hub
      fails. */
  lemma SessionBeginsIff(v: int, from: Option<Time>, resolved: Resolution, hubStarts: bool)
    ensures var r := Begin(v, from, resolved, hubStarts);
            var live := from.None? || (resolved.Ok? && resolved.mode.Live?);
            && (r.Some? <==> live || (resolved.Ok? && hubStarts))
            && (r.Some? ==>
                  var s := r.value;
                  && s.own.liveMode == live && (s.own.playSM.Some? <==> !live)
                  && s.own.consumer.None? && s.own.liveHandle.None? && s.own.viewers == v
                  && s.lastSeekTime == if live then ZERO_TIME else resolved.at)
  {}

  predicate Stale(s: Session, n: int) { 0 < n <= s.lastSeqSeen }

  /** Attached: one live handle with its viewer, or a playback hub with its consumer. */
  ghost predicate Attached(s: Session, live: bool) {
    if live then s.own.liveMode && s.own.liveHandle.Some? && s.own.untrack && s.own.playSM.None?
    else !s.own.liveMode && s.own.playSM.Some? && s.own.consumer.Some? && s.own.liveHandle.None?
  }

  lemma StaleDoesNothing(s: Session, c: Cmd)
    requires (c.Seek? && Stale(s, c.number)) || (c.Skip? && c.offset.Some? && Stale(s, c.number))
    ensures Dispatch(s, c) == (s, true)
  {}

  /** Start attaches where the session is, exactly when the writer can be built, the hub takes the
      consumer, and there is a hub without one. */
  lemma StartAttachesIff(s: Session, a: Attach, v: int)
    requires Inv(s.own, v)
    ensures var (u, go) := Dispatch(s, Start(a));
            && (go <==> a.built && a.consumed && (s.own.liveMode || (s.own.playSM.Some? && s.own.consumer.None?)))
            && (go ==> Attached(u, s.own.liveMode)) && (!go ==> u == s)
  {}

  /** A seek to "now" that is not stale is answered live at the clock, and attached, exactly when the live
      hub takes the consumer. */
  lemma SeekNowAnsweredIff(s: Session, n: int, env: SeekEnv)
    requires !Stale(s, n)
    ensures var (u, go) := Dispatch(s, Seek(Now, n, env));
            && (go <==> env.attach.built && env.attach.consumed)
            && (go ==> Attached(u, true) && u.replies == s.replies + [Seeked(n, Live, env.now, false)])
            && (!go ==> u.replies == s.replies)
  {}

  predicate GoesLive(env: SeekEnv) { env.resolved.Err? || env.resolved.mode.Live? }

  /** A seek to a time that is not stale is answered, once, and attached in the mode it names, exactly when
      the time resolves or lies in the future, the playback hub starts if one is needed, and the hub takes
      the consumer. */
  lemma SeekAnsweredIff(s: Session, t: Time, n: int, env: SeekEnv)
    requires !Stale(s, n)
    ensures var (u, go) := Dispatch(s, Seek(At(t), n, env));
            && (go <==> (env.resolved.Ok? || t > env.now) && (GoesLive(env) || env.hubStarts) && env.attach.built && env.attach.consumed)
            && (go ==>
                  && |u.replies| == |s.replies| + 1 && u.replies[..|s.replies|] == s.replies
                  && Attached(u, GoesLive(env))
                  && Lands(u.replies[|s.replies|], t, n, env) && u.lastSeekTime == u.replies[|s.replies|].at)
            && (!go ==> u.replies == s.replies && u.lastSeekTime == s.lastSeekTime)
  {
    hide Drop;
  }

  /** A reply reports where the seek landed. */
  ghost predicate Lands(r: Reply, t: Time, n: int, env: SeekEnv) {
    && r.Seeked? && r.number == n
    && (r.mode.Live? <==> GoesLive(env))
    && (r.mode.Live? ==> !r.gap && r.at == env.now)
    && (!r.mode.Live? ==> env.resolved == Ok(r.at, r.mode))
    && (r.mode.Recorded? ==> r.gap == GapReported(t, r.at))
    && (r.mode.FirstAvailable? ==> r.gap)
  }

  /** The right answer to a request for a time: live exactly beyond the last end, or beyond the clock when
      nothing is recorded; first_available, with a gap and the first start, exactly when confusion hides
      all that is left; a recorded one at the least covered instant exactly when undisturbed, and its gap
      flag then says whether the five seconds from the request are empty. Clear requests are never
      disturbed. */
  ghost predicate Answers(r: Reply, t: Time, n: int, now: Time, rows: set<Entry>, last: Option<Entry>, entries: seq<Entry>) {
    && r.Seeked? && r.number == n
    && (r.mode.Live? <==> if last.Some? then t > last.value.end else t > now)
    && (r.mode.Live? ==> !r.gap && r.at == now)
    && (r.mode.FirstAvailable? <==> last.Some? && t <= last.value.end && AllDropped(rows, t))
    && (r.mode.FirstAvailable? ==> r.gap && forall e :: e in rows ==> TextLeq(r.at, e.start))
    && (r.mode.Recorded? ==>
          && entries != []
          && (LeastCovered(rows, t, r.at) <==> Undisturbed(rows, t, entries[0]))
          && (Undisturbed(rows, t, entries[0]) ==> (r.gap <==> FiveSecondsEmpty(rows, t))))
    && (Clear(rows, t) ==> !r.mode.FirstAvailable? && (r.mode.Recorded? ==> Undisturbed(rows, t, entries[0])))
  }

  lemma LandingAnswers(r: Reply, t: Time, n: int, env: SeekEnv,
                       rows: set<Entry>, last: Option<Entry>, entries: seq<Entry>, first: Option<Entry>)
    requires WellFormed(rows) && t > ZERO_TIME && Storable(t)
    requires IsLast(rows, last) && IsFirst(rows, first) && IsQuery(rows, t, ZERO_TIME, entries)
    requires env.resolved == Resolve(last, entries, first, t, env.now)
    requires (env.resolved.Ok? || t > env.now) && Lands(r, t, n, env)
    ensures Answers(r, t, n, env.now, rows, last, entries)
  {
    hide Clear, Undisturbed, AllDropped, IsQuery, IsLast, IsFirst, Covered, LeastCovered, Resolve, TextLeq, WellFormed, Storable;
    OpenEndedResolution(rows, last, entries, first, t, env.now);
    if Clear(rows, t) { ClearResolution(rows, last, entries, first, t, env.now); }
    if env.resolved.Ok? && env.resolved.mode.Recorded? && LeastCovered(rows, t, env.resolved.at) {
      GapAtLeastCovered(rows, t, env.resolved.at);
    }
  }

  /** End to end, for every seek to a time that is not stale: when it is answered, and that the answer is
      the right one for what the channel's rows hold. */
  lemma SeekAnswersWithFootage(s: Session, t: Time, n: int, env: SeekEnv,
                               rows: set<Entry>, last: Option<Entry>, entries: seq<Entry>, first: Option<Entry>)
    requires !Stale(s, n) && WellFormed(rows) && t > ZERO_TIME && Storable(t)
    requires IsLast(rows, last) && IsFirst(rows, first) && IsQuery(rows, t, ZERO_TIME, entries)
    requires env.resolved == Resolve(last, entries, first, t, env.now)
    ensures var (u, go) := Dispatch(s, Seek(At(t), n, env));
            && (go <==> (rows != {} || t > env.now) && (GoesLive(env) || env.hubStarts) && env.attach.built && env.attach.consumed)
            && (go ==> |u.replies| == |s.replies| + 1 && Answers(u.replies[|s.replies|], t, n, env.now, rows, last, entries))
  {
    hide Dispatch, Answers, Lands, IsQuery, Resolve, AllDropped, Undisturbed, LeastCovered, TextLeq, WellFormed, Storable, Attached, GoesLive;
    SeekAnsweredIff(s, t, n, env);
    OpenEndedResolution(rows, last, entries, first, t, env.now);
    var (u, go) := Dispatch(s, Seek(At(t), n, env));
    if go { LandingAnswers(u.replies[|s.replies|], t, n, env, rows, last, entries, first); }
  }

  /** All commands succeed. */
  predicate AllGo(s: Session, cmds: seq<Cmd>)
    decreases |cmds|
  {
    cmds == [] || (Dispatch(s, cmds[0]).1 && AllGo(Dispatch(s, cmds[0]).0, cmds[1..]))
  }

  /** The first command that fails is the last one the session handles. */
  lemma {:induction false} NothingAfterFailure(s: Session, before: seq<Cmd>, c: Cmd, after: seq<Cmd>)
    requires AllGo(s, before) && !Dispatch(ReadLoop(s, before), c).1
    ensures ReadLoop(s, before + ([c] + after)) == Dispatch(ReadLoop(s, before), c).0
    decreases |before|
  {
    hide Dispatch;
    var cmds := before + ([c] + after);
    if before == [] {
      assert cmds == [c] + after;
    } else {
      assert cmds[0] == before[0] && cmds[1..] == before[1..] + ([c] + after);
      NothingAfterFailure(Dispatch(s, before[0]).0, before[1..], c, after);
    }
  }

  // ---------------------------------------------------------------- where a skip goes

  predicate ToTime(c: Cmd) { c.Skip? || (c.Seek? && c.target.At?) }

  /** The position of a session, read off its replies: the time of the last reply to a seek or skip to a
      time, `start` until there is one. */
  function Position(start: Time, s: Session, cmds: seq<Cmd>): (t: Time)
    decreases |cmds|
  {
    if cmds == [] then start
    else
      var (u, go) := Dispatch(s, cmds[0]);
      var here := if ToTime(cmds[0]) && |u.replies| > |s.replies| && u.replies[|s.replies|].Seeked?
                  then u.replies[|s.replies|].at else start;
      if go then Position(here, u, cmds[1..]) else here
  }

  /** Where a skip by o aims: from the position, or from the clock while there is none. */
  function SkipTarget(position: Time, o: Time, now: Time): Time {
    (if position == ZERO_TIME then now else position) + o
  }

  /** A skip is the seek to the time it aims at. */
  lemma SkipIsSeek(s: Session, o: Time, n: int, env: SeekEnv)
    ensures Dispatch(s, Skip(Some(o), n, env)) == Dispatch(s, Seek(At(SkipTarget(s.lastSeekTime, o, env.now)), n, env))
  {
    hide ExecuteSeek;
  }

  lemma StepPosition(s: Session, c: Cmd)
    ensures var u := Dispatch(s, c).0;
            u.lastSeekTime == if ToTime(c) && |u.replies| > |s.replies| && u.replies[|s.replies|].Seeked?
                              then u.replies[|s.replies|].at else s.lastSeekTime
  {
    match c
    case Start(a) => hide AttachConsumer;
    case Seek(target, n, env) =>
      if target.At? {
        SeekPosition(s, target.t, n, env);
      } else {
        hide AttachConsumer, Stop, StartLive;
      }
    case Skip(offset, n, env) =>
      if offset.Some? {
        SkipIsSeek(s, offset.value, n, env);
        SeekPosition(s, SkipTarget(s.lastSeekTime, offset.value, env.now), n, env);
        hide Dispatch;
      }
    case Ignored =>
  }

  lemma SeekPosition(s: Session, t: Time, n: int, env: SeekEnv)
    ensures var u := Dispatch(s, Seek(At(t), n, env)).0;
            u.lastSeekTime == if |u.replies| > |s.replies| && u.replies[|s.replies|].Seeked?
                              then u.replies[|s.replies|].at else s.lastSeekTime
  {
    if Stale(s, n) {
      StaleDoesNothing(s, Seek(At(t), n, env));
    } else {
      SeekAnsweredIff(s, t, n, env);
      hide Dispatch, Attached, Lands;
    }
  }

  /** Over every command sequence the session's last seek time is its position. */
  lemma {:induction false} PositionIsKept(s: Session, cmds: seq<Cmd>)
    ensures ReadLoop(s, cmds).lastSeekTime == Position(s.lastSeekTime, s, cmds)
    decreases |cmds|
  {
    if cmds != [] {
      StepPosition(s, cmds[0]);
      hide Dispatch;
      PositionIsKept(Dispatch(s, cmds[0]).0, cmds[1..]);
    }
  }

  /** End to end, for every skip that is not stale, after any commands of any session: it aims at the
      position plus the offset, is answered under the same conditions as a seek to that time, and with the
      right answer for it. With nothing recorded it goes live exactly when it aims beyond the clock. */
  lemma SkipAnswersWithFootage(v: int, from: Option<Time>, resolved: Resolution, hubStarts: bool, cmds: seq<Cmd>,
                               o: Time, n: int, env: SeekEnv, t: Time,
                               rows: set<Entry>, last: Option<Entry>, entries: seq<Entry>, first: Option<Entry>)
    requires Begin(v, from, resolved, hubStarts).Some?
    requires var start := if from.None? || resolved.mode.Live? then ZERO_TIME else resolved.at;
             t == SkipTarget(Position(start, Begin(v, from, resolved, hubStarts).value, cmds), o, env.now)
    requires !Stale(ReadLoop(Begin(v, from, resolved, hubStarts).value, cmds), n)
    requires WellFormed(rows) && t > ZERO_TIME && Storable(t)
    requires IsLast(rows, last) && IsFirst(rows, first) && IsQuery(rows, t, ZERO_TIME, entries)
    requires env.resolved == Resolve(last, entries, first, t, env.now)
    ensures var s := ReadLoop(Begin(v, from, resolved, hubStarts).value, cmds);
            var (u, go) := Dispatch(s, Skip(Some(o), n, env));
            && (go <==> (rows != {} || t > env.now) && (GoesLive(env) || env.hubStarts) && env.attach.built && env.attach.consumed)
            && (go ==> |u.replies| == |s.replies| + 1 && Answers(u.replies[|s.replies|], t, n, env.now, rows, last, entries))
  {
    SessionBeginsIff(v, from, resolved, hubStarts);
    var b := Begin(v, from, resolved, hubStarts).value;
    hide Begin, ReadLoop, Dispatch, Position, Answers, Attached, IsQuery, IsLast, IsFirst, Resolve, WellFormed, Storable, GoesLive;
    PositionIsKept(b, cmds);
    SkipIsSeek(ReadLoop(b, cmds), o, n, env);
    SeekAnswersWithFootage(ReadLoop(b, cmds), t, n, env, rows, last, entries, first);
  }
}
