/** The cursor over recorded segments (indexSource, openFirstSegment and the demuxer factories in
pkg/edgeview/stream.go).

What the environment answers is a parameter of each call: which files open, what the index returns,
whether the live buffer exists. Within one call every entry is opened at most once, so a function from
entries to outcomes describes files that vanish at any moment.
*/
module IndexSource {
  import opened Wrappers
  import opened Recording

  datatype OpenOutcome = Opened | Missing | Broken

  type Files = Entry -> OpenOutcome

  datatype Source = Source(
    entries: seq<Entry>,
    idx: nat,
    seen: set<string>,
    follow: bool,
    hasBuffers: bool,       // a packet buffer provider is configured
    usedBuf: bool,
    lastSegEnd: Time,
    lastGap: Time)

  datatype Out =
    | Segment(e: Entry)
    | LiveBuffer(since: Time)
    | Eof
    | OpenError
    | QueryError
    | Cancelled

  /** Answers to one Next: one quick poll, the live buffer, then the slow polls until cancellation. A
      failed query is None. */
  datatype Env = Env(files: Files, poll: Option<seq<Entry>>, buffer: bool, polls: seq<Option<seq<Entry>>>, now: Time)

  const GAP_THRESHOLD: Time := 5 * SECOND

  ghost predicate Wf(s: Source) {
    && s.idx <= |s.entries|
    && DistinctIds(s.entries)
    && Ids(s.entries) <= s.seen
  }

  // ---------------------------------------------------------------- one step at a time

  /** openEntry: gap tracking of an opened segment. */
  function Track(s: Source, e: Entry): Source {
    s.(lastGap :=
         if s.lastSegEnd != ZERO_TIME && e.start != ZERO_TIME && e.start - s.lastSegEnd >= GAP_THRESHOLD
         then e.start - s.lastSegEnd else 0,
       lastSegEnd := if e.end != ZERO_TIME then e.end else s.lastSegEnd)
  }

  /** Opens the next listed segment whose file exists. */
  function Advance(s: Source, files: Files): (r: (Source, Option<Out>))
    decreases |s.entries| - s.idx
  {
    if s.idx >= |s.entries| then (s, None)
    else
      var e, t := s.entries[s.idx], s.(idx := s.idx + 1);
      match files(e)
      case Opened => (Track(t, e), Some(Segment(e)))
      case Missing => Advance(t, files)
      case Broken => (t, Some(OpenError))
  }

  /** Lists the entries that have not been seen. */
  function Absorb(s: Source, added: seq<Entry>): (t: Source)
    decreases |added|
  {
    if added == [] then s
    else if added[0].id in s.seen then Absorb(s, added[1..])
    else Absorb(s.(seen := s.seen + {added[0].id}, entries := s.entries + [added[0]]), added[1..])
  }

  function Poll(s: Source, added: seq<Entry>, files: Files): (r: (Source, Option<Out>)) {
    Advance(Absorb(s, added), files)
  }

  function WaitForNext(s: Source, files: Files, polls: seq<Option<seq<Entry>>>): (r: (Source, Out))
    decreases |polls|
  {
    if polls == [] then (s, Cancelled)
    else if polls[0].None? then WaitForNext(s, files, polls[1..])
    else
      var (t, out) := Poll(s, polls[0].value, files);
      if out.Some? then (t, out.value) else WaitForNext(t, files, polls[1..])
  }

  function TryLive(s: Source, buffer: bool, now: Time): (r: (Source, Option<Out>)) {
    if s.usedBuf || !s.hasBuffers || !buffer then (s, None)
    else
      var since := if s.entries != [] then s.entries[|s.entries| - 1].end else now - 30 * SECOND;
      (s.(usedBuf := true), Some(LiveBuffer(since)))
  }

  function QuickPoll(s: Source, env: Env): (r: (Source, Option<Out>)) {
    if env.poll.None? then (s, None) else Poll(s, env.poll.value, env.files)
  }

  function Next(s: Source, env: Env): (r: (Source, Out)) {
    var (a, out) := Advance(s, env.files);
    if out.Some? then (a, out.value)
    else if !a.follow then (a, Eof)
    else
      var (b, quick) := QuickPoll(a, env);
      if quick.Some? then (b, quick.value)
      else
        var (c, live) := TryLive(b, env.buffer, env.now);
        if live.Some? then (c, live.value) else WaitForNext(c, env.files, env.polls)
  }

  /** Position of the first entry that opens; an error stops the search. */
  function FirstOpen(es: seq<Entry>, files: Files): (r: Option<nat>)
    ensures r.Some? ==> r.value < |es| && files(es[r.value]).Opened? && forall j :: 0 <= j < r.value ==> files(es[j]).Missing?
  {
    if es == [] then None
    else match files(es[0])
      case Opened => Some(0)
      case Missing => (match FirstOpen(es[1..], files) case None => None case Some(k) => Some(k + 1))
      case Broken => None
  }

  predicate StopsOnError(es: seq<Entry>, files: Files) {
    es != [] && (files(es[0]).Broken? || (files(es[0]).Missing? && StopsOnError(es[1..], files)))
  }

  /** OpenAt: a seek. `result` is what the index returned for the timestamp. */
  function OpenAt(s: Source, result: Option<seq<Entry>>, files: Files): (r: (Source, Out)) {
    if result.None? then (s, QueryError)
    else
      var es := result.value;
      match FirstOpen(es, files)
      case None => (s, if StopsOnError(es, files) then OpenError else Eof)
      case Some(i) =>
        (s.(entries := es, idx := i + 1, seen := Ids(es) + s.seen, lastGap := 0,
            lastSegEnd := if es[i].end != ZERO_TIME then es[i].end else s.lastSegEnd),
         Segment(es[i]))
  }

  /** The source a factory builds once it has opened entry i. */
  function FromFactory(es: seq<Entry>, i: nat, follow: bool, hasBuffers: bool): (s: Source)
    requires i < |es|
  {
    Source(es, i + 1, Ids(es), follow, hasBuffers, false, ZERO_TIME, 0)
  }

  datatype Opening =
    | Playing(e: Entry, source: Source)
    | NearLive(since: Time)
    | NoRecordings
    | FailedOpening

  /** RecordedDemuxerFactory, given what the index answered for the requested range. */
  function OpenPlayback(result: Option<seq<Entry>>, files: Files, from: Time, follow: bool, hasBuffers: bool, buffer: bool): (r: Opening) {
    if result.None? then FailedOpening
    else
      var es := result.value;
      match FirstOpen(es, files)
      case Some(i) => Playing(es[i], FromFactory(es, i, follow, hasBuffers))
      case None =>
        if StopsOnError(es, files) then FailedOpening
        else if follow && hasBuffers && buffer then NearLive(from)
        else NoRecordings
  }

  // ---------------------------------------------------------------- the cursor as a class

  class Cursor {
    var entries: seq<Entry>
    var idx: nat
    var seen: set<string>
    const follow: bool
    const hasBuffers: bool
    var usedBuf: bool
    var lastSegEnd: Time
    var lastGap: Time

    ghost function Model(): Source
      reads this
    {
      Source(entries, idx, seen, follow, hasBuffers, usedBuf, lastSegEnd, lastGap)
    }

    constructor (es: seq<Entry>, startIdx: nat, follow: bool, hasBuffers: bool)
      requires 0 < startIdx <= |es|
      ensures Model() == FromFactory(es, startIdx - 1, follow, hasBuffers)
    {
      entries, idx, seen := es, startIdx, set e | e in es :: e.id;
      this.follow, this.hasBuffers := follow, hasBuffers;
      usedBuf, lastSegEnd, lastGap := false, ZERO_TIME, 0;
    }

    method OpenEntry(e: Entry)
      modifies this`lastGap, this`lastSegEnd
      ensures Model() == Track(old(Model()), e)
    {
      lastGap := 0;
      if lastSegEnd != ZERO_TIME && e.start != ZERO_TIME {
        var gap := e.start - lastSegEnd;
        if gap >= GAP_THRESHOLD {
          lastGap := gap;
        }
      }
      if e.end != ZERO_TIME {
        lastSegEnd := e.end;
      }
    }

    method OpenListed(files: Files) returns (out: Option<Out>)
      modifies this`idx, this`lastGap, this`lastSegEnd
      ensures (Model(), out) == Advance(old(Model()), files)
    {
      while idx < |entries|
        invariant Advance(Model(), files) == Advance(old(Model()), files)
        decreases |entries| - idx
      {
        var e := entries[idx];
        idx := idx + 1;
        match files(e) {
          case Opened =>
            OpenEntry(e);
            return Some(Segment(e));
          case Missing =>
          case Broken =>
            return Some(OpenError);
        }
      }
      out := None;
    }

    method AppendUnseen(added: seq<Entry>)
      modifies this`entries, this`seen
      ensures Model() == Absorb(old(Model()), added)
    {
      assert added[0..] == added;
      for i := 0 to |added|
        invariant Absorb(Model(), added[i..]) == Absorb(old(Model()), added)
      {
        assert added[i..][1..] == added[i + 1..];
        if added[i].id !in seen {
          seen := seen + {added[i].id};
          entries := entries + [added[i]];
        }
      }
    }

    method Wait(files: Files, polls: seq<Option<seq<Entry>>>) returns (out: Out)
      modifies this
      ensures (Model(), out) == WaitForNext(old(Model()), files, polls)
    {
      assert polls[0..] == polls;
      for i := 0 to |polls|
        invariant WaitForNext(Model(), files, polls[i..]) == WaitForNext(old(Model()), files, polls)
      {
        assert polls[i..][1..] == polls[i + 1..];
        if polls[i].Some? {
          AppendUnseen(polls[i].value);
          var found := OpenListed(files);
          if found.Some? {
            return found.value;
          }
        }
      }
      out := Cancelled;
    }

    method NextSegment(env: Env) returns (out: Out)
      modifies this
      ensures (Model(), out) == Next(old(Model()), env)
    {
      var found := OpenListed(env.files);
      if found.Some? {
        return found.value;
      }
      if !follow {
        return Eof;
      }
      if env.poll.Some? {
        AppendUnseen(env.poll.value);
        found := OpenListed(env.files);
        if found.Some? {
          return found.value;
        }
      }
      if !usedBuf && hasBuffers && env.buffer {
        usedBuf := true;
        var since := env.now - 30 * SECOND;
        if |entries| > 0 {
          since := entries[|entries| - 1].end;
        }
        return LiveBuffer(since);
      }
      out := Wait(env.files, env.polls);
    }

    method SeekTo(result: Option<seq<Entry>>, files: Files) returns (out: Out)
      modifies this
      ensures (Model(), out) == OpenAt(old(Model()), result, files)
    {
      if result.None? {
        return QueryError;
      }
      var es := result.value;
      var i, ok := OpenFirst(es, files);
      if !ok {
        return if i < |es| then OpenError else Eof;
      }
      entries, idx, seen, lastGap := es, i + 1, Ids(es) + seen, 0;
      if es[i].end != ZERO_TIME {
        lastSegEnd := es[i].end;
      }
      out := Segment(es[i]);
    }
  }

  /** openFirstSegment: i is where the search stopped, the length when every file was missing. */
  method OpenFirst(es: seq<Entry>, files: Files) returns (i: nat, ok: bool)
    ensures ok <==> FirstOpen(es, files).Some?
    ensures ok ==> i == FirstOpen(es, files).value
    ensures !ok ==> i <= |es| && (i < |es| <==> StopsOnError(es, files))
  {
    i := 0;
    assert es[0..] == es;
    while i < |es|
      invariant 0 <= i <= |es|
      invariant FirstOpen(es, files)
                == match FirstOpen(es[i..], files) case None => None case Some(k) => Some(i + k)
      invariant StopsOnError(es, files) == StopsOnError(es[i..], files)
    {
      assert es[i..][1..] == es[i + 1..];
      match files(es[i]) {
        case Opened =>
          return i, true;
        case Missing =>
        case Broken =>
          return i, false;
      }
      i := i + 1;
    }
    ok := false;
  }

  // ---------------------------------------------------------------- what every call keeps

  /** t continues s: the list only grew at its end and the cursor only moved forward. */
  ghost predicate Continues(s: Source, t: Source) {
    && s.entries <= t.entries && s.idx <= t.idx
    && (s.usedBuf ==> t.usedBuf) && t.follow == s.follow && t.hasBuffers == s.hasBuffers
  }

  /** What an outcome says about the state it leaves: a segment is the entry just behind the cursor; the
      live buffer is handed out with every listed entry consumed and starts at the last listed end. */
  ghost predicate OutOk(s: Source, t: Source, out: Out) {
    match out
    case Segment(e) => s.idx < t.idx <= |t.entries| && t.entries[t.idx - 1] == e && t.usedBuf == s.usedBuf
    case LiveBuffer(since) =>
      && !s.usedBuf && t.usedBuf && t.idx == |t.entries|
      && (t.entries != [] ==> since == t.entries[|t.entries| - 1].end)
    case _ => t.usedBuf == s.usedBuf
  }

  lemma {:induction false} AdvanceOk(s: Source, files: Files)
    requires Wf(s)
    ensures var (t, out) := Advance(s, files);
            && Wf(t) && Continues(s, t) && t.entries == s.entries && t.usedBuf == s.usedBuf
            && (out.None? ==> t.idx == |t.entries|)
            && (out.Some? ==> !out.value.LiveBuffer? && OutOk(s, t, out.value))
    decreases |s.entries| - s.idx
  {
    if s.idx < |s.entries| && files(s.entries[s.idx]).Missing? {
      AdvanceOk(s.(idx := s.idx + 1), files);
    }
  }

  lemma {:induction false} AbsorbOk(s: Source, added: seq<Entry>)
    requires Wf(s)
    ensures var t := Absorb(s, added); Wf(t) && Continues(s, t) && t.idx == s.idx && t.usedBuf == s.usedBuf
    ensures Ids(added) <= Absorb(s, added).seen
    decreases |added|
  {
    if added != [] {
      var e := added[0];
      var t := if e.id in s.seen then s else s.(seen := s.seen + {e.id}, entries := s.entries + [e]);
      assert Wf(t) by {
        if e.id !in s.seen {
          forall i | 0 <= i < |s.entries| ensures s.entries[i].id != e.id { assert s.entries[i].id in Ids(s.entries); }
          assert Ids(t.entries) == Ids(s.entries) + {e.id};
        }
      }
      AbsorbOk(t, added[1..]);
      SeenGrows(t, added[1..]);
      assert Ids(added) == {e.id} + Ids(added[1..]);
    }
  }

  lemma {:induction false} SeenGrows(s: Source, added: seq<Entry>)
    ensures s.seen <= Absorb(s, added).seen
    decreases |added|
  {
    if added != [] {
      SeenGrows(if added[0].id in s.seen then s
                else s.(seen := s.seen + {added[0].id}, entries := s.entries + [added[0]]), added[1..]);
    }
  }

  lemma PollOk(s: Source, added: seq<Entry>, files: Files)
    requires Wf(s)
    ensures var (t, out) := Poll(s, added, files);
            && Wf(t) && Continues(s, t) && t.usedBuf == s.usedBuf
            && (out.None? ==> t.idx == |t.entries|)
            && (out.Some? ==> !out.value.LiveBuffer? && OutOk(s, t, out.value))
  {
    AbsorbOk(s, added);
    AdvanceOk(Absorb(s, added), files);
  }

  lemma {:induction false} WaitOk(s: Source, files: Files, polls: seq<Option<seq<Entry>>>)
    requires Wf(s)
    ensures var (t, out) := WaitForNext(s, files, polls);
            Wf(t) && Continues(s, t) && !out.LiveBuffer? && OutOk(s, t, out)
    decreases |polls|
  {
    if polls != [] {
      if polls[0].None? {
        WaitOk(s, files, polls[1..]);
      } else {
        PollOk(s, polls[0].value, files);
        WaitOk(Poll(s, polls[0].value, files).0, files, polls[1..]);
      }
    }
  }

  /** One Next, whatever the environment answers. */
  lemma NextOk(s: Source, env: Env)
    requires Wf(s)
    ensures var (t, out) := Next(s, env); Wf(t) && Continues(s, t) && OutOk(s, t, out)
  {
    AdvanceOk(s, env.files);
    var (a, out) := Advance(s, env.files);
    if out.None? && a.follow {
      hide Advance, Poll, WaitForNext;
      if env.poll.Some? { PollOk(a, env.poll.value, env.files); }
      var (b, quick) := QuickPoll(a, env);
      if quick.None? {
        var (c, live) := TryLive(b, env.buffer, env.now);
        if live.None? { WaitOk(c, env.files, env.polls); }
      }
    }
  }

  lemma OpenAtOk(s: Source, result: Option<seq<Entry>>, files: Files)
    requires Wf(s) && (result.Some? ==> DistinctIds(result.value))
    ensures var (t, out) := OpenAt(s, result, files);
            && Wf(t) && t.usedBuf == s.usedBuf && s.seen <= t.seen
            && (out.Segment? ==> 0 < t.idx <= |t.entries| && t.entries[t.idx - 1] == out.e)
            && (!out.Segment? ==> t == s)
  {}

  // ---------------------------------------------------------------- runs

  datatype Call = CallNext(env: Env) | CallOpenAt(result: Option<seq<Entry>>, files: Files)

  function Do(s: Source, c: Call): (r: (Source, Out)) {
    match c
    case CallNext(env) => Next(s, env)
    case CallOpenAt(result, files) => OpenAt(s, result, files)
  }

  function Final(s: Source, calls: seq<Call>): (t: Source)
    decreases |calls|
  {
    if calls == [] then s else Final(Do(s, calls[0]).0, calls[1..])
  }

  function Outs(s: Source, calls: seq<Call>): (outs: seq<Out>)
    ensures |outs| == |calls|
    decreases |calls|
  {
    if calls == [] then [] else [Do(s, calls[0]).1] + Outs(Do(s, calls[0]).0, calls[1..])
  }

  /** Index answers carry distinct ids (the id is the table's primary key). */
  ghost predicate GoodCalls(calls: seq<Call>) {
    forall c :: c in calls && c.CallOpenAt? && c.result.Some? ==> DistinctIds(c.result.value)
  }

  /** Over every run the listed ids stay distinct and all marked seen. */
  lemma {:induction false} RunKeepsWf(s: Source, calls: seq<Call>)
    requires Wf(s) && GoodCalls(calls)
    ensures Wf(Final(s, calls))
    decreases |calls|
  {
    if calls != [] {
      DoOk(s, calls[0]) by { assert calls[0] in calls; }
      RunKeepsWf(Do(s, calls[0]).0, calls[1..]);
    }
  }

  lemma DoOk(s: Source, c: Call)
    requires Wf(s) && GoodCalls([c])
    ensures var (t, out) := Do(s, c);
            && Wf(t) && (s.usedBuf ==> t.usedBuf && !out.LiveBuffer?) && (out.LiveBuffer? ==> t.usedBuf)
  {
    assert c in [c];
    match c
    case CallNext(env) => NextOk(s, env);
    case CallOpenAt(result, files) => OpenAtOk(s, result, files);
  }

  /** The live buffer is handed out at most once, seeks included. */
  lemma {:induction false} LiveBufferAtMostOnce(s: Source, calls: seq<Call>, i: nat, j: nat)
    requires Wf(s) && GoodCalls(calls) && i < j < |calls|
    ensures !(Outs(s, calls)[i].LiveBuffer? && Outs(s, calls)[j].LiveBuffer?)
    decreases |calls|
  {
    DoOk(s, calls[0]) by { assert calls[0] in calls; }
    var t := Do(s, calls[0]).0;
    if i == 0 {
      if t.usedBuf { NoMoreBuffer(t, calls[1..], j - 1); }
    } else {
      LiveBufferAtMostOnce(t, calls[1..], i - 1, j - 1);
    }
  }

  lemma {:induction false} NoMoreBuffer(s: Source, calls: seq<Call>, j: nat)
    requires Wf(s) && GoodCalls(calls) && s.usedBuf && j < |calls|
    ensures !Outs(s, calls)[j].LiveBuffer?
    decreases |calls|
  {
    DoOk(s, calls[0]) by { assert calls[0] in calls; }
    if j > 0 { NoMoreBuffer(Do(s, calls[0]).0, calls[1..], j - 1); }
  }

  ghost predicate OnlyNext(calls: seq<Call>) {
    forall c :: c in calls ==> c.CallNext?
  }

  lemma {:induction false} OpensBehindCursor(s: Source, calls: seq<Call>, j: nat)
    requires Wf(s) && OnlyNext(calls) && j < |calls| && Outs(s, calls)[j].Segment?
    ensures Outs(s, calls)[j].e.id !in Ids(s.entries[..s.idx])
    decreases |calls|
  {
    assert calls[0] in calls;
    NextOk(s, calls[0].env);
    var (t, out) := Do(s, calls[0]);
    hide Next;
    if j == 0 {
      forall e | e in s.entries[..s.idx] ensures e.id != out.e.id {
        var k :| 0 <= k < s.idx && s.entries[k] == e;
        assert t.entries[k] == e;
      }
    } else {
      OpensBehindCursor(t, calls[1..], j - 1);
      forall e | e in s.entries[..s.idx] ensures e in t.entries[..t.idx] {
        var k :| 0 <= k < s.idx && s.entries[k] == e;
        assert t.entries[..t.idx][k] == e;
      }
    }
  }

  /** Between two seeks no segment is opened twice. */
  lemma {:induction false} NoSegmentTwice(s: Source, calls: seq<Call>, i: nat, j: nat)
    requires Wf(s) && OnlyNext(calls) && i < j < |calls|
    requires Outs(s, calls)[i].Segment? && Outs(s, calls)[j].Segment?
    ensures Outs(s, calls)[i].e.id != Outs(s, calls)[j].e.id
    decreases |calls|
  {
    assert calls[0] in calls;
    NextOk(s, calls[0].env);
    var t := Do(s, calls[0]).0;
    hide Next;
    if i == 0 {
      OpensBehindCursor(t, calls[1..], j - 1);
      assert t.entries[..t.idx][t.idx - 1] == t.entries[t.idx - 1];
    } else {
      NoSegmentTwice(t, calls[1..], i - 1, j - 1);
    }
  }

  lemma FactorySourceIsWf(es: seq<Entry>, i: nat, follow: bool, hasBuffers: bool)
    requires DistinctIds(es) && i < |es|
    ensures Wf(FromFactory(es, i, follow, hasBuffers))
  {}

  /** Nor is the segment just behind the cursor, which a seek opened, opened again. */
  lemma NotOpenedAgain(s: Source, calls: seq<Call>, j: nat)
    requires Wf(s) && s.idx > 0 && OnlyNext(calls) && j < |calls| && Outs(s, calls)[j].Segment?
    ensures Outs(s, calls)[j].e.id != s.entries[s.idx - 1].id
  {
    OpensBehindCursor(s, calls, j);
    assert s.entries[..s.idx][s.idx - 1] == s.entries[s.idx - 1];
  }

  /** A playback from its factory on: ids stay distinct and seen through every run, and without a seek no
      segment is played twice, the one the factory opened included. */
  lemma FactoryPlaybackRepeatsNothing(es: seq<Entry>, f: nat, follow: bool, hasBuffers: bool, calls: seq<Call>)
    requires DistinctIds(es) && f < |es|
    ensures GoodCalls(calls) ==> Wf(Final(FromFactory(es, f, follow, hasBuffers), calls))
    ensures OnlyNext(calls) ==>
              var outs := Outs(FromFactory(es, f, follow, hasBuffers), calls);
              && (forall j :: 0 <= j < |outs| && outs[j].Segment? ==> outs[j].e.id != es[f].id)
              && (forall i, j :: 0 <= i < j < |outs| && outs[i].Segment? && outs[j].Segment? ==> outs[i].e.id != outs[j].e.id)
  {
    var s := FromFactory(es, f, follow, hasBuffers);
    FactorySourceIsWf(es, f, follow, hasBuffers);
    if GoodCalls(calls) { RunKeepsWf(s, calls); }
    if OnlyNext(calls) {
      var outs := Outs(s, calls);
      hide Outs, Final, FromFactory;
      forall j | 0 <= j < |outs| && outs[j].Segment? ensures outs[j].e.id != s.entries[s.idx - 1].id { NotOpenedAgain(s, calls, j); }
      forall i, j | 0 <= i < j < |outs| && outs[i].Segment? && outs[j].Segment? ensures outs[i].e.id != outs[j].e.id {
        NoSegmentTwice(s, calls, i, j);
      }
    }
  }

  // ---------------------------------------------------------------- playing to the end

  function Existing(es: seq<Entry>, files: Files): (r: seq<Entry>) {
    if es == [] then []
    else (if files(es[0]).Opened? then [es[0]] else []) + Existing(es[1..], files)
  }

  lemma ExistingCons(es: seq<Entry>, files: Files)
    requires es != []
    ensures Existing(es, files) == (if files(es[0]).Opened? then [es[0]] else []) + Existing(es[1..], files)
  {}

  lemma Assoc<T>(a: seq<T>, b: seq<T>, c: seq<T>)
    ensures a + (b + c) == (a + b) + c
  {}

  lemma {:induction false} ExistingAppend(a: seq<Entry>, b: seq<Entry>, files: Files)
    ensures Existing(a + b, files) == Existing(a, files) + Existing(b, files)
  {
    hide Existing;
    if a == [] {
      ExistingNone(files);
      assert a + b == b;
    } else {
      ExistingCons(a, files);
      ExistingCons(a + b, files);
      assert (a + b)[1..] == a[1..] + b;
      ExistingAppend(a[1..], b, files);
      Assoc(if files(a[0]).Opened? then [a[0]] else [], Existing(a[1..], files), Existing(b, files));
    }
  }

  predicate Taken(out: Option<Out>) { out.Some? && (out.value.Segment? || out.value.OpenError?) }

  /** Of the entries the cursor moved past, the last is the one returned, or the one whose file broke; the
      files of all others were missing. */
  ghost predicate PlayedIn(s: Source, t: Source, out: Option<Out>, files: Files)
    requires s.idx <= t.idx <= |t.entries|
  {
    && (Taken(out) ==>
          && s.idx < t.idx
          && (out.value.Segment? ==> out.value.e == t.entries[t.idx - 1] && files(out.value.e).Opened?)
          && (out.value.OpenError? ==> files(t.entries[t.idx - 1]).Broken?))
    && forall k :: s.idx <= k < (if Taken(out) then t.idx - 1 else t.idx) ==> files(t.entries[k]).Missing?
  }

  lemma {:induction false} MissingNone(es: seq<Entry>, files: Files)
    requires forall k :: 0 <= k < |es| ==> files(es[k]).Missing?
    ensures Existing(es, files) == []
  {
    if es != [] { MissingNone(es[1..], files); }
  }

  lemma PlayedExisting(s: Source, t: Source, out: Option<Out>, files: Files)
    requires s.idx <= t.idx <= |t.entries| && PlayedIn(s, t, out, files)
    ensures Existing(t.entries[s.idx..t.idx], files) == if out.Some? && out.value.Segment? then [out.value.e] else []
  {
    hide Existing;
    var es := t.entries[s.idx..t.idx];
    if Taken(out) {
      var e, front := es[|es| - 1], es[..|es| - 1];
      assert es == front + [e];
      ExistingAppend(front, [e], files);
      MissingNone(front, files);
      ExistingCons([e], files);
      assert [e][1..] == [];
      ExistingNone(files);
    } else {
      MissingNone(es, files);
    }
  }

  lemma {:induction false} AdvancePlays(s: Source, files: Files)
    requires s.idx <= |s.entries|
    ensures var (t, out) := Advance(s, files);
            && t.entries == s.entries && s.idx <= t.idx <= |t.entries| && PlayedIn(s, t, out, files)
            && (out.None? ==> t.idx == |t.entries|)
    decreases |s.entries| - s.idx
  {
    if s.idx < |s.entries| && files(s.entries[s.idx]).Missing? { AdvancePlays(s.(idx := s.idx + 1), files); }
  }

  /** Two stretches of the run, the first of which opened nothing. */
  lemma PlayedTwice(s: Source, t: Source, u: Source, out: Option<Out>, files: Files)
    requires s.idx <= t.idx <= |t.entries| && t.idx <= u.idx <= |u.entries| && t.entries <= u.entries
    requires PlayedIn(s, t, None, files) && PlayedIn(t, u, out, files)
    ensures PlayedIn(s, u, out, files)
  {
    forall k | s.idx <= k < (if Taken(out) then u.idx - 1 else u.idx) ensures files(u.entries[k]).Missing? {
      if k < t.idx { assert u.entries[k] == t.entries[k]; }
    }
  }

  lemma {:induction false} AbsorbLists(s: Source, added: seq<Entry>)
    ensures var t := Absorb(s, added);
            && s.entries <= t.entries && t.idx == s.idx
            && t.seen == s.seen + Ids(t.entries[|s.entries|..]) && Ids(added) <= t.seen
    decreases |added|
  {
    if added == [] {
      assert s.entries[|s.entries|..] == [];
    } else if added[0].id in s.seen {
      AbsorbLists(s, added[1..]);
      assert Ids(added) == Ids([added[0]] + added[1..]);
    } else {
      var u := s.(seen := s.seen + {added[0].id}, entries := s.entries + [added[0]]);
      AbsorbLists(u, added[1..]);
      var t := Absorb(s, added);
      assert t.entries[|s.entries|..] == [added[0]] + t.entries[|u.entries|..];
      assert Ids(added) == Ids([added[0]] + added[1..]);
    }
  }

  /** Everything a call adds to the listing was unseen, and everything it newly saw is listed. */
  ghost predicate Lists(s: Source, t: Source) {
    s.entries <= t.entries && t.seen == s.seen + Ids(t.entries[|s.entries|..])
  }

  lemma ListsTwice(s: Source, t: Source, u: Source)
    requires Lists(s, t) && Lists(t, u)
    ensures Lists(s, u) && t.seen <= u.seen
  {
    var a, b := t.entries[|s.entries|..], u.entries[|t.entries|..];
    assert u.entries[|s.entries|..] == a + b;
  }

  lemma {:induction false} AdvanceSeen(s: Source, files: Files)
    ensures Advance(s, files).0.seen == s.seen && Advance(s, files).0.entries == s.entries
    decreases |s.entries| - s.idx
  {
    if s.idx < |s.entries| && files(s.entries[s.idx]).Missing? { AdvanceSeen(s.(idx := s.idx + 1), files); }
  }

  lemma PollPlays(s: Source, added: seq<Entry>, files: Files)
    requires s.idx <= |s.entries|
    ensures var (t, out) := Poll(s, added, files);
            && s.idx <= t.idx <= |t.entries| && Lists(s, t) && Ids(added) <= t.seen && PlayedIn(s, t, out, files)
            && (out.None? ==> t.idx == |t.entries|)
  {
    AbsorbLists(s, added);
    AdvancePlays(Absorb(s, added), files);
    AdvanceSeen(Absorb(s, added), files);
  }

  /** The ids reported while waiting. */
  function WaitReports(s: Source, files: Files, polls: seq<Option<seq<Entry>>>): (ids: set<string>)
    decreases |polls|
  {
    if polls == [] then {}
    else if polls[0].None? then WaitReports(s, files, polls[1..])
    else
      var (t, out) := Poll(s, polls[0].value, files);
      Ids(polls[0].value) + (if out.Some? then {} else WaitReports(t, files, polls[1..]))
  }

  lemma {:induction false} WaitPlays(s: Source, files: Files, polls: seq<Option<seq<Entry>>>)
    requires s.idx == |s.entries|
    ensures var (t, out) := WaitForNext(s, files, polls);
            && s.idx <= t.idx <= |t.entries| && Lists(s, t) && PlayedIn(s, t, Some(out), files)
            && (out.Segment? || out.OpenError? || out.Cancelled?)
            && WaitReports(s, files, polls) <= t.seen
            && (out.Cancelled? ==> t.idx == |t.entries|)
    decreases |polls|
  {
    hide Poll, Existing;
    if polls == [] {
      assert s.entries[|s.entries|..] == [];
    } else if polls[0].None? {
      WaitPlays(s, files, polls[1..]);
    } else {
      var (t, out) := Poll(s, polls[0].value, files);
      PollPlays(s, polls[0].value, files);
      if out.None? {
        WaitPlays(t, files, polls[1..]);
        var (u, last) := WaitForNext(t, files, polls[1..]);
        PlayedTwice(s, t, u, Some(last), files);
        ListsTwice(s, t, u);
      } else {
        PollNoBuffer(s, polls[0].value, files);
      }
    }
  }

  lemma ExistingNone(files: Files)
    ensures Existing([], files) == []
  {}

  lemma {:induction false} AdvanceKinds(s: Source, files: Files)
    ensures var out := Advance(s, files).1; out.Some? ==> out.value.Segment? || out.value.OpenError?
    decreases |s.entries| - s.idx
  {
    if s.idx < |s.entries| && files(s.entries[s.idx]).Missing? { AdvanceKinds(s.(idx := s.idx + 1), files); }
  }

  lemma PollNoBuffer(s: Source, added: seq<Entry>, files: Files)
    ensures var out := Poll(s, added, files).1; out.Some? ==> out.value.Segment? || out.value.OpenError?
  {
    AdvanceKinds(Absorb(s, added), files);
  }

  /** The ids the index reports to a call before it returns. */
  function NextReports(s: Source, env: Env): (ids: set<string>) {
    var (a, out) := Advance(s, env.files);
    if out.Some? || !a.follow then {}
    else
      var (b, quick) := QuickPoll(a, env);
      var (c, live) := TryLive(b, env.buffer, env.now);
      (if env.poll.Some? then Ids(env.poll.value) else {})
      + (if quick.Some? || live.Some? then {} else WaitReports(c, env.files, env.polls))
  }

  /** One Next in any mode: the entries it moves past are the missing ones and the one it returns; it
      gives up, waits or turns to the live buffer only with every listed entry tried; and whatever the
      index reported to it is listed or was seen before. */
  lemma NextPlays(s: Source, env: Env)
    requires s.idx <= |s.entries|
    ensures var (t, out) := Next(s, env);
            && s.idx <= t.idx <= |t.entries| && Lists(s, t) && PlayedIn(s, t, Some(out), env.files)
            && (!out.Segment? && !out.OpenError? ==> t.idx == |t.entries|)
            && NextReports(s, env) <= t.seen
  {
    var (a, out) := Advance(s, env.files);
    AdvancePlays(s, env.files);
    AdvanceSeen(s, env.files);
    AdvanceKinds(s, env.files);
    assert s.entries[|s.entries|..] == [];
    assert Lists(s, a);
    hide Advance, Poll, Existing, WaitForNext, WaitReports, Ids, QuickPoll, TryLive, Lists, PlayedIn;
    if out.None? && a.follow {
      NextAfterListing(s, a, env);
      var (b, quick) := QuickPoll(a, env);
      var (c, live) := TryLive(b, env.buffer, env.now);
      if env.poll.Some? { assert Ids(env.poll.value) <= Next(s, env).0.seen; }
      if quick.None? && live.None? { assert WaitReports(c, env.files, env.polls) <= Next(s, env).0.seen; }
    }
  }

  lemma NextAfterListing(s: Source, a: Source, env: Env)
    requires s.idx <= a.idx == |a.entries| && Lists(s, a) && PlayedIn(s, a, None, env.files)
    ensures var (b, quick) := QuickPoll(a, env);
            var (c, live) := TryLive(b, env.buffer, env.now);
            var (t, out) := if quick.Some? then (b, quick.value)
                            else if live.Some? then (c, live.value) else WaitForNext(c, env.files, env.polls);
            && s.idx <= t.idx <= |t.entries| && Lists(s, t) && PlayedIn(s, t, Some(out), env.files)
            && (!out.Segment? && !out.OpenError? ==> t.idx == |t.entries|)
            && (env.poll.Some? ==> Ids(env.poll.value) <= t.seen)
            && (quick.None? && live.None? ==> WaitReports(c, env.files, env.polls) <= t.seen)
  {
    hide Poll, Existing, WaitForNext, Lists, PlayedIn, WaitReports, Ids;
    var (b, quick) := QuickPoll(a, env);
    QuickPlays(a, env);
    PlayedTwice(s, a, b, quick, env.files) by { ListsGrow(a, b); }
    ListsTwice(s, a, b);
    if quick.None? {
      var (c, live) := TryLive(b, env.buffer, env.now);
      SameListing(s, b, c, live, env.files);
      if live.None? {
        WaitPlays(c, env.files, env.polls);
        var (t, out) := WaitForNext(c, env.files, env.polls);
        ListsGrow(c, t);
        PlayedTwice(s, c, t, Some(out), env.files);
        ListsTwice(s, c, t);
      }
    }
  }

  lemma ListsGrow(s: Source, t: Source)
    requires Lists(s, t)
    ensures s.entries <= t.entries
  {}

  /** Turning to the live buffer touches neither listing nor cursor. */
  lemma SameListing(s: Source, b: Source, c: Source, live: Option<Out>, files: Files)
    requires s.idx <= b.idx <= |b.entries| && Lists(s, b) && PlayedIn(s, b, None, files)
    requires c.entries == b.entries && c.idx == b.idx && c.seen == b.seen && (live.Some? ==> live.value.LiveBuffer?)
    ensures Lists(s, c) && PlayedIn(s, c, live, files) && PlayedIn(s, c, None, files)
  {}

  lemma QuickPlays(s: Source, env: Env)
    requires s.idx == |s.entries|
    ensures var (t, out) := QuickPoll(s, env);
            && s.idx <= t.idx <= |t.entries| && Lists(s, t) && PlayedIn(s, t, out, env.files)
            && (env.poll.Some? ==> Ids(env.poll.value) <= t.seen)
            && (out.None? ==> t.idx == |t.entries|)
            && (out.Some? ==> out.value.Segment? || out.value.OpenError?)
  {
    hide Poll;
    if env.poll.Some? {
      PollPlays(s, env.poll.value, env.files);
      PollNoBuffer(s, env.poll.value, env.files);
    } else {
      assert s.entries[s.idx..s.idx] == [] && s.entries[|s.entries|..] == [];
    }
  }

  /** The ids the index reports over a run. */
  function RunReports(s: Source, calls: seq<Call>): (ids: set<string>)
    decreases |calls|
  {
    if calls == [] then {}
    else
      (match calls[0]
       case CallNext(env) => NextReports(s, env)
       case CallOpenAt(result, _) => if result.Some? then Ids(result.value) else {})
      + RunReports(Do(s, calls[0]).0, calls[1..])
  }

  /** The segments among the outcomes. */
  function Segments(outs: seq<Out>): (r: seq<Entry>) {
    if outs == [] then [] else (if outs[0].Segment? then [outs[0].e] else []) + Segments(outs[1..])
  }

  lemma PlayedThen(s: Source, t: Source, u: Source, files: Files)
    requires s.idx <= t.idx <= |t.entries| && t.idx <= u.idx <= |u.entries| && t.entries <= u.entries
    ensures Existing(u.entries[s.idx..u.idx], files) == Existing(t.entries[s.idx..t.idx], files) + Existing(u.entries[t.idx..u.idx], files)
  {
    var a, b := t.entries[s.idx..t.idx], u.entries[t.idx..u.idx];
    assert a + b == u.entries[s.idx..u.idx];
    ExistingAppend(a, b, files);
  }

  /** In follow mode or not, over any number of Next calls with the index growing: the segments played
      are exactly the listed entries between the first and the last cursor position whose files opened,
      in order. Between seeks an entry is tried once, so one function says what happened to each file. */
  lemma {:induction false} FollowPlaysWhatOpens(s: Source, calls: seq<Call>, files: Files)
    requires s.idx <= |s.entries| && OnlyNext(calls) && forall c :: c in calls && c.CallNext? ==> c.env.files == files
    ensures var t := Final(s, calls);
            && s.idx <= t.idx <= |t.entries| && Lists(s, t) && RunReports(s, calls) <= t.seen
            && Segments(Outs(s, calls)) == Existing(t.entries[s.idx..t.idx], files)
    decreases |calls|
  {
    if calls == [] {
      assert s.entries[s.idx..s.idx] == [] && s.entries[|s.entries|..] == [];
    } else {
      assert calls[0] in calls;
      NextPlays(s, calls[0].env);
      var t, u := Do(s, calls[0]).0, Final(s, calls);
      PlayedExisting(s, t, Some(Do(s, calls[0]).1), files);
      FollowPlaysWhatOpens(t, calls[1..], files);
      assert Outs(s, calls)[1..] == Outs(t, calls[1..]);
      hide Next, Existing, Do, Final, Outs, PlayedIn, NextReports;
      ListsTwice(s, t, u);
      ListsGrow(t, u);
      hide Lists;
      PlayedThen(s, t, u, files);
    }
  }

  /** Completeness of following: when the last Next is abandoned while it waits, every entry listed from
      the start of the run on was played if its file opened, and every entry the index reported to any
      call of the run is listed or was known before. */
  lemma FollowIsComplete(s: Source, calls: seq<Call>, env: Env, id: string)
    requires s.idx <= |s.entries| && OnlyNext(calls) && forall c :: c in calls && c.CallNext? ==> c.env.files == env.files
    requires Next(Final(s, calls), env).1.Cancelled?
    ensures var t := Next(Final(s, calls), env).0;
            && s.entries <= t.entries && s.idx <= |t.entries|
            && Segments(Outs(s, calls)) == Existing(t.entries[s.idx..], env.files)
            && (id in RunReports(s, calls) || id in NextReports(Final(s, calls), env) ==>
                  id in s.seen || exists k :: |s.entries| <= k < |t.entries| && t.entries[k].id == id)
  {
    var u := Final(s, calls);
    FollowPlaysWhatOpens(s, calls, env.files);
    NextPlays(u, env);
    hide Next, Existing, Final, RunReports, NextReports;
    var t := Next(u, env).0;
    ListsTwice(s, u, t);
    PlayedThenWaits(s, u, t, env.files);
    if (id in RunReports(s, calls) || id in NextReports(u, env)) && id !in s.seen {
      assert id in Ids(t.entries[|s.entries|..]);
      var d :| d in t.entries[|s.entries|..] && d.id == id;
      var k :| 0 <= k < |t.entries| - |s.entries| && t.entries[|s.entries|..][k] == d;
      assert t.entries[|s.entries| + k] == d;
    }
  }

  lemma PlayedThenWaits(s: Source, u: Source, t: Source, files: Files)
    requires s.idx <= u.idx <= |u.entries| && u.idx <= t.idx == |t.entries| && u.entries <= t.entries
    requires PlayedIn(u, t, None, files)
    ensures Existing(u.entries[s.idx..u.idx], files) == Existing(t.entries[s.idx..], files)
  {
    var a, b := u.entries[s.idx..u.idx], t.entries[u.idx..t.idx];
    assert a + b == t.entries[s.idx..];
    ExistingAppend(a, b, files);
    PlayedExisting(u, t, None, files);
  }

  // ---------------------------------------------------------------- the hand-over to live

  ghost predicate AllMissing(es: seq<Entry>, files: Files) {
    forall k :: 0 <= k < |es| ==> files(es[k]).Missing?
  }

  /** Entry k of a report is the first to carry an id that was not known before. */
  ghost predicate IsNew(seen: set<string>, report: seq<Entry>, k: nat)
    requires k < |report|
  {
    report[k].id !in seen && forall j :: 0 <= j < k ==> report[j].id != report[k].id
  }

  ghost predicate NewMissing(seen: set<string>, report: seq<Entry>, files: Files) {
    forall k :: 0 <= k < |report| && IsNew(seen, report, k) ==> files(report[k]).Missing?
  }

  lemma {:induction false} AdvanceFinds(s: Source, files: Files)
    requires s.idx <= |s.entries|
    ensures var (t, out) := Advance(s, files);
            && (out.None? <==> AllMissing(s.entries[s.idx..], files))
            && (out.None? ==> t == s.(idx := |s.entries|))
    decreases |s.entries| - s.idx
  {
    if s.idx < |s.entries| {
      var es := s.entries[s.idx..];
      assert es[1..] == s.entries[s.idx + 1..];
      if files(es[0]).Missing? {
        AdvanceFinds(s.(idx := s.idx + 1), files);
        assert AllMissing(es, files) <==> AllMissing(es[1..], files) by {
          assert forall k :: 0 < k < |es| ==> es[k] == es[1..][k - 1];
        }
      }
    }
  }

  lemma {:induction false} AbsorbMissing(s: Source, added: seq<Entry>, files: Files)
    ensures var t := Absorb(s, added);
            && s.entries <= t.entries && t == s.(entries := t.entries, seen := t.seen)
            && (AllMissing(t.entries[|s.entries|..], files) <==> NewMissing(s.seen, added, files))
    decreases |added|
  {
    if added == [] {
      assert s.entries[|s.entries|..] == [];
    } else {
      var rest := added[1..];
      var known := added[0].id in s.seen;
      var u := if known then s else s.(seen := s.seen + {added[0].id}, entries := s.entries + [added[0]]);
      AbsorbMissing(u, rest, files);
      NewBehindFirst(s.seen, added, files);
      var t := Absorb(s, added);
      if !known {
        assert t.entries[|s.entries|..] == [added[0]] + t.entries[|u.entries|..];
        AllMissingCons(added[0], t.entries[|u.entries|..], files);
      }
    }
  }

  lemma AllMissingCons(e: Entry, es: seq<Entry>, files: Files)
    ensures AllMissing([e] + es, files) <==> files(e).Missing? && AllMissing(es, files)
  {
    assert forall k :: 0 <= k < |es| ==> ([e] + es)[k + 1] == es[k];
    assert ([e] + es)[0] == e;
  }

  lemma NewBehindFirst(seen: set<string>, report: seq<Entry>, files: Files)
    requires report != []
    ensures NewMissing(seen, report, files) <==>
            && (report[0].id !in seen ==> files(report[0]).Missing?)
            && NewMissing(seen + {report[0].id}, report[1..], files)
    ensures report[0].id in seen ==> seen + {report[0].id} == seen
  {
    var rest, more := report[1..], seen + {report[0].id};
    assert report[0].id !in seen ==> IsNew(seen, report, 0);
    forall k | 0 < k < |report| ensures IsNew(seen, report, k) <==> IsNew(more, rest, k - 1) {
      assert rest[k - 1] == report[k];
      if IsNew(more, rest, k - 1) {
        forall j | 0 <= j < k ensures report[j].id != report[k].id { if j > 0 { assert rest[j - 1] == report[j]; } }
      }
      if IsNew(seen, report, k) {
        forall j | 0 <= j < k - 1 ensures rest[j].id != rest[k - 1].id { assert report[j + 1] == rest[j]; }
      }
    }
    if NewMissing(seen, report, files) {
      forall k | 0 <= k < |rest| && IsNew(more, rest, k) ensures files(rest[k]).Missing? { assert IsNew(seen, report, k + 1); }
    }
    if (report[0].id !in seen ==> files(report[0]).Missing?) && NewMissing(more, rest, files) {
      forall k | 0 <= k < |report| && IsNew(seen, report, k) ensures files(report[k]).Missing? {
        if k > 0 { assert IsNew(more, rest, k - 1); }
      }
    }
  }

  /** The one situation in which playback turns to the live buffer. */
  ghost predicate ReadyForLive(s: Source, env: Env)
    requires s.idx <= |s.entries|
  {
    && s.follow && s.hasBuffers && env.buffer && !s.usedBuf
    && AllMissing(s.entries[s.idx..], env.files)
    && (env.poll.Some? ==> NewMissing(s.seen, env.poll.value, env.files))
  }

  /** Next hands over to the live buffer exactly when it follows, a buffer is configured, exists and was
      not used, no remaining listed file and no newly reported one is there; the buffer then starts at the
      end of the last listing, or thirty seconds back when nothing was ever listed. Without follow mode
      it ends exactly when no remaining file is there. */
  lemma NextGoesLiveIff(s: Source, env: Env)
    requires s.idx <= |s.entries|
    ensures var (t, out) := Next(s, env);
            && (out.LiveBuffer? <==> ReadyForLive(s, env))
            && (out.LiveBuffer? ==> out.since == if t.entries == [] then env.now - 30 * SECOND else t.entries[|t.entries| - 1].end)
            && (out.Eof? <==> !s.follow && AllMissing(s.entries[s.idx..], env.files))
            && (t.usedBuf <==> s.usedBuf || out.LiveBuffer?)
  {
    AdvanceFinds(s, env.files);
    AdvanceKinds(s, env.files);
    FollowKept(s, env.files);
    AdvanceBuffer(s, env.files);
    var (a, out) := Advance(s, env.files);
    hide Advance, Absorb, AllMissing, NewMissing, WaitForNext;
    if out.None? && a.follow {
      if env.poll.Some? {
        var report := env.poll.value;
        var c := Absorb(a, report);
        AbsorbMissing(a, report, env.files);
        AdvanceFinds(c, env.files);
        AdvanceKinds(c, env.files);
        AdvanceBuffer(c, env.files);
      }
      var (b, quick) := QuickPoll(a, env);
      var d := TryLive(b, env.buffer, env.now).0;
      WaitKinds(d, env.files, env.polls);
    }
  }

  lemma {:induction false} AdvanceBuffer(s: Source, files: Files)
    ensures var t := Advance(s, files).0; t.usedBuf == s.usedBuf && t.hasBuffers == s.hasBuffers
    decreases |s.entries| - s.idx
  {
    if s.idx < |s.entries| && files(s.entries[s.idx]).Missing? { AdvanceBuffer(s.(idx := s.idx + 1), files); }
  }

  lemma {:induction false} AbsorbBuffer(s: Source, added: seq<Entry>)
    ensures Absorb(s, added).usedBuf == s.usedBuf
    decreases |added|
  {
    if added != [] {
      AbsorbBuffer(if added[0].id in s.seen then s else s.(seen := s.seen + {added[0].id}, entries := s.entries + [added[0]]), added[1..]);
    }
  }

  lemma {:induction false} WaitKinds(s: Source, files: Files, polls: seq<Option<seq<Entry>>>)
    ensures var (t, out) := WaitForNext(s, files, polls); !out.LiveBuffer? && !out.Eof? && t.usedBuf == s.usedBuf
    decreases |polls|
  {
    hide Absorb, Advance;
    if polls != [] && polls[0].None? {
      WaitKinds(s, files, polls[1..]);
    } else if polls != [] {
      var a := Absorb(s, polls[0].value);
      AbsorbBuffer(s, polls[0].value);
      AdvanceBuffer(a, files);
      AdvanceKinds(a, files);
      WaitKinds(Advance(a, files).0, files, polls[1..]);
    }
  }

  ghost predicate HadLive(outs: seq<Out>, j: nat)
    requires j <= |outs|
  {
    exists k :: 0 <= k < j && outs[k].LiveBuffer?
  }

  lemma HadLiveBehind(outs: seq<Out>, rest: seq<Out>, j: nat)
    requires 0 < j <= |outs| == |rest| + 1 && forall k :: 0 < k < |outs| ==> outs[k] == rest[k - 1]
    ensures HadLive(outs, j) <==> outs[0].LiveBuffer? || HadLive(rest, j - 1)
  {
    if HadLive(rest, j - 1) {
      var k :| 0 <= k < j - 1 && rest[k].LiveBuffer?;
      assert outs[k + 1].LiveBuffer?;
    }
  }

  lemma {:induction false} UsedBufferIff(s: Source, calls: seq<Call>, j: nat)
    requires Wf(s) && GoodCalls(calls) && j <= |calls|
    ensures Wf(Final(s, calls[..j]))
    ensures Final(s, calls[..j]).usedBuf <==> s.usedBuf || HadLive(Outs(s, calls), j)
    decreases |calls|
  {
    if j == 0 {
      assert calls[..0] == [];
    } else {
      var (t, out) := Do(s, calls[0]);
      assert calls[0] in calls;
      DoOk(s, calls[0]) by { assert calls[0] in calls; }
      DoBuffer(s, calls[0]);
      hide Do, Wf;
      FinalBehind(s, calls, j);
      assert Outs(s, calls)[0] == out && forall k :: 0 < k < |calls| ==> Outs(s, calls)[k] == Outs(t, calls[1..])[k - 1];
      hide Outs, Final, HadLive;
      UsedBufferIff(t, calls[1..], j - 1);
      HadLiveBehind(Outs(s, calls), Outs(t, calls[1..]), j);
    }
  }

  lemma DoBuffer(s: Source, c: Call)
    requires Wf(s)
    ensures var (t, out) := Do(s, c); t.usedBuf <==> s.usedBuf || out.LiveBuffer?
  {
    if c.CallNext? { NextGoesLiveIff(s, c.env); }
    hide Next;
  }

  lemma {:induction false} StateAndOut(s: Source, calls: seq<Call>, j: nat)
    requires j < |calls|
    ensures Outs(s, calls)[j] == Do(Final(s, calls[..j]), calls[j]).1
    decreases |calls|
  {
    hide Do;
    if j > 0 {
      assert calls[..j][1..] == calls[1..][..j - 1];
      StateAndOut(Do(s, calls[0]).0, calls[1..], j - 1);
    } else {
      assert calls[..0] == [];
    }
  }

  /** Over every run from an unused buffer, seeks included: call j hands over to live exactly when it is a
      Next, none before it did, and the cursor it finds is ready. So the first Next that can hand over
      does. */
  lemma HandOverIff(s: Source, calls: seq<Call>, j: nat)
    requires Wf(s) && !s.usedBuf && GoodCalls(calls) && j < |calls|
    ensures var u := Final(s, calls[..j]);
            && u.idx <= |u.entries|
            && (Outs(s, calls)[j].LiveBuffer? <==>
                  && calls[j].CallNext? && !HadLive(Outs(s, calls), j)
                  && ReadyForLive(u.(usedBuf := false), calls[j].env))
  {
    UsedBufferIff(s, calls, j);
    StateAndOut(s, calls, j);
    var u := Final(s, calls[..j]);
    if calls[j].CallNext? { NextGoesLiveIff(u, calls[j].env); }
    hide Next, Final, Outs, AllMissing, NewMissing;
  }

  // ---------------------------------------------------------------- seeks

  /** The outcome of a seek: the first file that is there decides; a failed seek says why. */
  lemma SeekOutcomeIff(s: Source, result: Option<seq<Entry>>, files: Files)
    ensures var (t, out) := OpenAt(s, result, files);
            && (out.QueryError? <==> result.None?)
            && (out.Eof? <==> result.Some? && AllMissing(result.value, files))
            && (out.OpenError? <==> result.Some? && exists k :: 0 <= k < |result.value| && files(result.value[k]).Broken? && AllMissing(result.value[..k], files))
            && (out.Segment? <==> result.Some? && exists k :: 0 <= k < |result.value| && files(result.value[k]).Opened? && AllMissing(result.value[..k], files))
            && (out.Segment? ==>
                  t.entries == result.value && 0 < t.idx <= |t.entries| && t.entries[t.idx - 1] == out.e
                  && files(out.e).Opened? && AllMissing(t.entries[..t.idx - 1], files))
  {
    if result.Some? { SearchOutcome(result.value, files); }
  }

  /** What a playback starts with: the first file that is there, with the rest of the answer ahead; and
      without any, the live buffer from the requested time exactly for a follower that has one. */
  lemma PlaybackOpensIff(result: Option<seq<Entry>>, files: Files, from: Time, follow: bool, hasBuffers: bool, buffer: bool)
    ensures var r := OpenPlayback(result, files, from, follow, hasBuffers, buffer);
            && (r.Playing? <==> result.Some? && exists k :: 0 <= k < |result.value| && files(result.value[k]).Opened? && AllMissing(result.value[..k], files))
            && (r.Playing? ==>
                  var s := r.source;
                  && s.entries == result.value && 0 < s.idx <= |s.entries| && s.entries[s.idx - 1] == r.e
                  && files(r.e).Opened? && AllMissing(s.entries[..s.idx - 1], files) && s.follow == follow && !s.usedBuf)
            && (r.NearLive? <==> follow && hasBuffers && buffer && result.Some? && AllMissing(result.value, files))
            && (r.NearLive? ==> r.since == from)
            && (r.NoRecordings? <==> !(follow && hasBuffers && buffer) && result.Some? && AllMissing(result.value, files))
  {
    if result.Some? { SearchOutcome(result.value, files); }
  }

  lemma {:induction false} SearchOutcome(es: seq<Entry>, files: Files)
    ensures FirstOpen(es, files).Some? <==> exists k :: 0 <= k < |es| && files(es[k]).Opened? && AllMissing(es[..k], files)
    ensures StopsOnError(es, files) <==> exists k :: 0 <= k < |es| && files(es[k]).Broken? && AllMissing(es[..k], files)
    ensures FirstOpen(es, files).None? && !StopsOnError(es, files) <==> AllMissing(es, files)
    ensures FirstOpen(es, files).Some? ==> !StopsOnError(es, files)
  {
    var m := FirstThere(es, files);
    SearchTo(es, files, m);
    hide FirstOpen, StopsOnError;
    if m < |es| {
      forall k | 0 <= k < m ensures files(es[k]).Missing? { assert es[..m][k] == es[k]; }
      forall k | m < k <= |es| ensures !AllMissing(es[..k], files) { assert es[..k][m] == es[m]; }
      assert !AllMissing(es, files);
    } else {
      assert es[..m] == es;
    }
  }

  /** Position of the first file that is not missing, or the length. */
  lemma {:induction false} FirstThere(es: seq<Entry>, files: Files) returns (m: nat)
    ensures m <= |es| && AllMissing(es[..m], files) && (m < |es| ==> !files(es[m]).Missing?)
  {
    if es == [] || !files(es[0]).Missing? {
      m := 0;
    } else {
      var k := FirstThere(es[1..], files);
      m := k + 1;
      assert es[..m] == [es[0]] + es[1..][..k];
      AllMissingCons(es[0], es[1..][..k], files);
    }
  }

  lemma {:induction false} SearchTo(es: seq<Entry>, files: Files, m: nat)
    requires m <= |es| && AllMissing(es[..m], files) && (m < |es| ==> !files(es[m]).Missing?)
    ensures FirstOpen(es, files) == if m < |es| && files(es[m]).Opened? then Some(m) else None
    ensures StopsOnError(es, files) <==> m < |es| && files(es[m]).Broken?
  {
    if m > 0 {
      assert es[..m] == [es[0]] + es[1..][..m - 1];
      AllMissingCons(es[0], es[1..][..m - 1], files);
      SearchTo(es[1..], files, m - 1);
    }
  }

  // ---------------------------------------------------------------- without follow mode

  /** The segments that Next yields until EOF or an error, without follow mode. */
  function PlayOut(s: Source, env: Env): (r: seq<Entry>)
    requires !s.follow
    decreases |s.entries| - s.idx
  {
    var (t, out) := Next(s, env);
    if out.Segment? then NextMoves(s, env); [out.e] + PlayOut(t, env) else []
  }

  /** Without follow mode Next is a search of the listing. */
  lemma NextWithoutFollow(s: Source, env: Env)
    requires !s.follow
    ensures Next(s, env) == var (t, out) := Advance(s, env.files); (t, if out.Some? then out.value else Eof)
  {
    FollowKept(s, env.files);
  }

  lemma {:induction false} FollowKept(s: Source, files: Files)
    ensures Advance(s, files).0.follow == s.follow
    decreases |s.entries| - s.idx
  {
    if s.idx < |s.entries| && files(s.entries[s.idx]).Missing? { FollowKept(s.(idx := s.idx + 1), files); }
  }

  lemma NextMoves(s: Source, env: Env)
    requires !s.follow && Next(s, env).1.Segment?
    ensures var t := Next(s, env).0; t.entries == s.entries && !t.follow && s.idx < t.idx <= |s.entries|
  {
    NextWithoutFollow(s, env);
    FollowKept(s, env.files);
    AdvanceMoves(s, env.files);
  }

  lemma {:induction false} AdvanceMoves(s: Source, files: Files)
    ensures var (t, out) := Advance(s, files);
            && t.entries == s.entries
            && (out.Some? ==> s.idx < t.idx <= |t.entries|)
    decreases |s.entries| - s.idx
  {
    if s.idx < |s.entries| && files(s.entries[s.idx]).Missing? { AdvanceMoves(s.(idx := s.idx + 1), files); }
  }

  /** The entries in front of the first whose file is there but cannot be opened. */
  function UntilBroken(es: seq<Entry>, files: Files): (r: seq<Entry>)
    ensures r <= es && (forall e :: e in r ==> !files(e).Broken?)
    ensures |r| < |es| ==> files(es[|r|]).Broken?
  {
    if es == [] || files(es[0]).Broken? then [] else [es[0]] + UntilBroken(es[1..], files)
  }

  /** What the first entry contributes. */
  lemma PlayedHead(es: seq<Entry>, files: Files)
    ensures Existing(UntilBroken(es, files), files) ==
            if es == [] || files(es[0]).Broken? then []
            else if files(es[0]).Missing? then Existing(UntilBroken(es[1..], files), files)
            else [es[0]] + Existing(UntilBroken(es[1..], files), files)
  {
    if es != [] && !files(es[0]).Broken? {
      var r := UntilBroken(es[1..], files);
      assert ([es[0]] + r)[1..] == r;
    }
  }

  lemma {:induction false} AdvanceSkipsMissing(s: Source, files: Files)
    requires s.idx <= |s.entries|
    ensures var (t, out) := Advance(s, files);
            && t.entries == s.entries && s.idx <= t.idx <= |s.entries|
            && (out.Some? ==> (out.value.Segment? || out.value.OpenError?) && s.idx < t.idx)
            && Existing(UntilBroken(s.entries[s.idx..], files), files)
               == if out.Some? && out.value.Segment? then [out.value.e] + Existing(UntilBroken(s.entries[t.idx..], files), files) else []
    decreases |s.entries| - s.idx
  {
    hide Existing, UntilBroken;
    var es := s.entries[s.idx..];
    PlayedHead(es, files);
    if s.idx < |s.entries| {
      assert es[1..] == s.entries[s.idx + 1..];
      if files(es[0]).Missing? {
        AdvanceSkipsMissing(s.(idx := s.idx + 1), files);
      }
    }
  }

  lemma {:induction false} PlayOutIsExisting(s: Source, env: Env)
    requires s.idx <= |s.entries| && !s.follow
    ensures PlayOut(s, env) == Existing(UntilBroken(s.entries[s.idx..], env.files), env.files)
    decreases |s.entries| - s.idx
  {
    AdvanceSkipsMissing(s, env.files);
    NextWithoutFollow(s, env);
    hide Next, Existing, UntilBroken;
    var (t, out) := Next(s, env);
    if out.Segment? {
      NextMoves(s, env);
      PlayOutIsExisting(t, env);
    }
  }

  lemma {:induction false} ExistingFromFirst(es: seq<Entry>, files: Files)
    ensures match FirstOpen(es, files)
            case None => Existing(UntilBroken(es, files), files) == []
            case Some(i) => Existing(UntilBroken(es, files), files) == [es[i]] + Existing(UntilBroken(es[i + 1..], files), files)
  {
    hide Existing, UntilBroken;
    PlayedHead(es, files);
    if es != [] && files(es[0]).Missing? {
      ExistingFromFirst(es[1..], files);
      var r := FirstOpen(es[1..], files);
      if r.Some? { assert es[1..][r.value + 1..] == es[r.value + 2..]; }
    }
  }

  /** Without follow mode the first segment and then Next until EOF play exactly the entries whose files
      exist, in order, up to the first file that is there but cannot be opened. */
  lemma PlaybackIsComplete(es: seq<Entry>, env: Env, hasBuffers: bool)
    ensures match FirstOpen(es, env.files)
            case None => Existing(UntilBroken(es, env.files), env.files) == []
            case Some(i) => [es[i]] + PlayOut(FromFactory(es, i, false, hasBuffers), env) == Existing(UntilBroken(es, env.files), env.files)
  {
    hide Existing, UntilBroken, PlayOut, Next;
    ExistingFromFirst(es, env.files);
    var r := FirstOpen(es, env.files);
    if r.Some? { PlayOutIsExisting(FromFactory(es, r.value, false, hasBuffers), env); }
  }

  /** After a seek, too: the segment it opens and then Next until the end play exactly what exists of the
      index's answer. */
  lemma SeekPlaysAnswer(s: Source, es: seq<Entry>, env: Env)
    requires !s.follow && OpenAt(s, Some(es), env.files).1.Segment?
    ensures var (t, out) := OpenAt(s, Some(es), env.files);
            [out.e] + PlayOut(t, env) == Existing(UntilBroken(es, env.files), env.files)
  {
    ExistingFromFirst(es, env.files);
    hide Existing, UntilBroken;
    PlayOutIsExisting(OpenAt(s, Some(es), env.files).0, env);
  }

  // ---------------------------------------------------------------- gaps

  /** What a call does to the gap bookkeeping. */
  ghost predicate Tracks(s: Source, t: Source, out: Option<Out>) {
    if out.Some? && out.value.Segment? then
      t.lastGap == Track(s, out.value.e).lastGap && t.lastSegEnd == Track(s, out.value.e).lastSegEnd
    else t.lastSegEnd == s.lastSegEnd
  }

  lemma {:induction false} AdvanceTracks(s: Source, files: Files)
    ensures var (t, out) := Advance(s, files); Tracks(s, t, out)
    decreases |s.entries| - s.idx
  {
    if s.idx < |s.entries| && files(s.entries[s.idx]).Missing? { AdvanceTracks(s.(idx := s.idx + 1), files); }
  }

  lemma {:induction false} PollTracks(s: Source, added: seq<Entry>, files: Files)
    ensures var (t, out) := Poll(s, added, files); Tracks(s, t, out)
    decreases |added|
  {
    if added == [] {
      AdvanceTracks(s, files);
    } else if added[0].id in s.seen {
      PollTracks(s, added[1..], files);
    } else {
      PollTracks(s.(seen := s.seen + {added[0].id}, entries := s.entries + [added[0]]), added[1..], files);
    }
  }

  lemma {:induction false} WaitTracks(s: Source, files: Files, polls: seq<Option<seq<Entry>>>)
    ensures var (t, out) := WaitForNext(s, files, polls); Tracks(s, t, Some(out))
    decreases |polls|
  {
    hide Poll;
    if polls != [] && polls[0].None? {
      WaitTracks(s, files, polls[1..]);
    } else if polls != [] {
      PollTracks(s, polls[0].value, files);
      WaitTracks(Poll(s, polls[0].value, files).0, files, polls[1..]);
    }
  }

  lemma NextTracks(s: Source, env: Env)
    ensures var (t, out) := Next(s, env); Tracks(s, t, Some(out))
  {
    AdvanceTracks(s, env.files);
    hide Advance, Poll, WaitForNext;
    var (a, out) := Advance(s, env.files);
    if out.None? && a.follow {
      if env.poll.Some? { PollTracks(a, env.poll.value, env.files); }
      var (b, quick) := QuickPoll(a, env);
      WaitTracks(TryLive(b, env.buffer, env.now).0, env.files, env.polls);
    }
  }

  /** Any call: opening a segment with an end time remembers it, opening nothing remembers the old one. */
  lemma CallTracks(s: Source, c: Call)
    ensures var (t, out) := Do(s, c);
            && (c.CallNext? ==> Tracks(s, t, Some(out)))
            && (!out.Segment? ==> t.lastSegEnd == s.lastSegEnd)
            && (out.Segment? && out.e.end != ZERO_TIME ==> t.lastSegEnd == out.e.end)
  {
    if c.CallNext? { NextTracks(s, c.env); }
    hide Next;
  }

  /** Outcomes and states behind the first call. */
  lemma BehindFirst(s: Source, calls: seq<Call>, j: nat)
    requires 0 < j < |calls|
    ensures var t := Do(s, calls[0]).0;
            && Final(s, calls[..j + 1]) == Final(t, calls[1..][..j])
            && forall k :: 0 < k < |calls| ==> Outs(s, calls)[k] == Outs(t, calls[1..])[k - 1]
  {
    hide Do;
    assert calls[..j + 1][1..] == calls[1..][..j];
  }

  /** Nothing opened by the first j calls has an end time; interrupted segments have none. */
  ghost predicate NoEndIn(outs: seq<Out>, i: nat, j: nat)
    requires j <= |outs|
  {
    forall k :: i <= k < j && outs[k].Segment? ==> outs[k].e.end == ZERO_TIME
  }

  /** From a state on, with no end time met in between: the gap at a segment is measured from the state's
      last end, which is what the state in front of that segment still holds. */
  lemma {:induction false} GapFrom(s: Source, calls: seq<Call>, j: nat)
    requires j < |calls| && NoEndIn(Outs(s, calls), 0, j)
    ensures Final(s, calls[..j]).lastSegEnd == s.lastSegEnd
    ensures calls[j].CallNext? && Outs(s, calls)[j].Segment? ==>
              Final(s, calls[..j + 1]).lastGap == Track(s, Outs(s, calls)[j].e).lastGap
    decreases |calls|
  {
    var (t, out) := Do(s, calls[0]);
    CallTracks(s, calls[0]);
    hide Do;
    if j == 0 {
      assert calls[..0] == [] && calls[..1][1..] == [];
      assert Final(s, calls[..1]) == Final(t, []) == t;
    } else {
      BehindFirst(s, calls, j);
      assert Outs(s, calls)[0] == out;
      FinalBehind(s, calls, j);
      hide Outs, Final;
      EndsBehind(Outs(s, calls), Outs(t, calls[1..]), 0, j);
      GapFrom(t, calls[1..], j - 1);
    }
  }

  lemma EndsBehind(outs: seq<Out>, rest: seq<Out>, i: nat, j: nat)
    requires 0 < j <= |outs| == |rest| + 1 && forall k :: 0 < k < |outs| ==> outs[k] == rest[k - 1]
    requires NoEndIn(outs, i, j)
    ensures NoEndIn(rest, Max(0, i - 1), j - 1)
  {
    forall k | Max(0, i - 1) <= k < j - 1 && rest[k].Segment? ensures rest[k].e.end == ZERO_TIME {
      assert outs[k + 1] == rest[k];
    }
  }

  lemma FinalBehind(s: Source, calls: seq<Call>, j: nat)
    requires 0 < j <= |calls|
    ensures Final(s, calls[..j]) == Final(Do(s, calls[0]).0, calls[1..][..j - 1])
  {
    hide Do;
    assert calls[..j][1..] == calls[1..][..j - 1];
  }

  function GapBetween(end: Time, start: Time): Time {
    if start != ZERO_TIME && start - end >= GAP_THRESHOLD then start - end else 0
  }

  /** In every run of Next and OpenAt, in follow mode or not: when Next opens a segment, the gap is its
      distance to the end of the last segment opened before it, by Next or by a seek, that had an end
      time, from five seconds on. Interrupted segments played in between do not count. */
  lemma {:induction false} GapsAreMeasured(s: Source, calls: seq<Call>, i: nat, j: nat)
    requires i < j < |calls| && Outs(s, calls)[i].Segment? && Outs(s, calls)[i].e.end != ZERO_TIME
    requires NoEndIn(Outs(s, calls), i + 1, j)
    ensures Final(s, calls[..j]).lastSegEnd == Outs(s, calls)[i].e.end
    ensures calls[j].CallNext? && Outs(s, calls)[j].Segment? ==>
              Final(s, calls[..j + 1]).lastGap == GapBetween(Outs(s, calls)[i].e.end, Outs(s, calls)[j].e.start)
    decreases |calls|
  {
    var (t, out) := Do(s, calls[0]);
    CallTracks(s, calls[0]);
    BehindFirst(s, calls, j);
    FinalBehind(s, calls, j);
    assert Outs(s, calls)[0] == out;
    hide Do, Outs, Final;
    EndsBehind(Outs(s, calls), Outs(t, calls[1..]), i + 1, j);
    if i == 0 {
      GapFrom(t, calls[1..], j - 1);
    } else {
      GapsAreMeasured(t, calls[1..], i - 1, j - 1);
    }
  }

  /** Which boundaries of a playback go unmeasured, however long the gap: exactly those in front of which
      no segment opened since the factory, by Next or by a seek, had an end time. */
  lemma BoundaryUnmeasuredIff(es: seq<Entry>, f: nat, follow: bool, hasBuffers: bool, calls: seq<Call>, j: nat)
    requires f < |es| && j < |calls|
    ensures var s := FromFactory(es, f, follow, hasBuffers);
            && (Final(s, calls[..j]).lastSegEnd == ZERO_TIME <==> NoEndIn(Outs(s, calls), 0, j))
            && (NoEndIn(Outs(s, calls), 0, j) && calls[j].CallNext? && Outs(s, calls)[j].Segment? ==>
                  Final(s, calls[..j + 1]).lastGap == 0)
  {
    var s := FromFactory(es, f, follow, hasBuffers);
    var outs := Outs(s, calls);
    hide Outs, Final;
    if NoEndIn(outs, 0, j) {
      GapFrom(s, calls, j);
    } else {
      var i := LastEndBefore(outs, j);
      GapsAreMeasured(s, calls, i, j);
    }
  }

  lemma {:induction false} LastEndBefore(outs: seq<Out>, j: nat) returns (i: nat)
    requires j <= |outs| && !NoEndIn(outs, 0, j)
    ensures i < j && outs[i].Segment? && outs[i].e.end != ZERO_TIME && NoEndIn(outs, i + 1, j)
    decreases j
  {
    i := j - 1;
    if !(outs[i].Segment? && outs[i].e.end != ZERO_TIME) {
      i := LastEndBefore(outs, j - 1);
    }
  }

  /** So an interrupted segment in the middle makes a false gap: after a seek to a, playing b and then c
      reports the whole distance from a to c, although b was played in between. */
  lemma InterruptedSegmentMakesFalseGap(s: Source, a: Entry, b: Entry, c: Entry, env: Env)
    requires a.end != ZERO_TIME && b.end == ZERO_TIME && c.start != ZERO_TIME && c.start - a.end >= GAP_THRESHOLD
    requires env.files(a).Opened? && env.files(b).Opened? && env.files(c).Opened?
    ensures var calls := [CallOpenAt(Some([a, b, c]), env.files), CallNext(env), CallNext(env)];
            && Outs(s, calls) == [Segment(a), Segment(b), Segment(c)]
            && Final(s, calls).lastGap == c.start - a.end
  {
    var es, open, next := [a, b, c], CallOpenAt(Some([a, b, c]), env.files), CallNext(env);
    var calls := [open, next, next];
    var (t, x) := Do(s, open);
    assert FirstOpen(es, env.files) == Some(0);
    assert t.entries == es && t.idx == 1 && x == Segment(a);
    var (u, y) := Do(t, next);
    assert u.entries == es && u.idx == 2 && y == Segment(b);
    var (v, z) := Do(u, next);
    assert z == Segment(c);
    hide Do;
    assert calls[1..] == [next, next] && [next, next][1..] == [next] && [next][1..] == [];
    assert Outs(u, [next]) == [z] && Outs(t, [next, next]) == [y, z];
    assert calls[..3] == calls;
    GapsAreMeasured(s, calls, 0, 2);
  }
}
