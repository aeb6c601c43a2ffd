/** Where playback starts (ResolvePlaybackStart in pkg/edgeview/stream.go, resolveAndStartSeek in
pkg/edgeview/ws_stream.go).

`rows` is the set of playable entries of the channel. The index compares stored texts, in range tests
and in ordering alike (IndexComparesText), and leaves ties open; the service compares times. Every statement is about all
results a query may return. A request is clear when the two orders cannot differ for it.
*/
module PlaybackStart {
  import opened Wrappers
  import opened Recording
  import opened TextTime

  datatype Mode = Recorded | FirstAvailable | Live
  datatype Resolution = Ok(at: Time, mode: Mode) | Err

  const GAP_THRESHOLD: Time := 5 * SECOND

  /** Entries end after they start; an interrupted one keeps the zero end time of its marker row. */
  ghost predicate WellFormed(rows: set<Entry>) {
    forall e :: e in rows ==>
      && ZERO_TIME < e.start && (e.start <= e.end || e.end == ZERO_TIME)
      && Storable(e.start) && Storable(e.end)
  }

  /** The range test of QueryByChannel; a zero bound means no bound. */
  predicate Kept(e: Entry, from: Time, to: Time) {
    (from == ZERO_TIME || TextLeq(from, e.end)) && (to == ZERO_TIME || TextLeq(e.start, to))
  }

  ghost predicate IsQuery(rows: set<Entry>, from: Time, to: Time, out: seq<Entry>) {
    && (forall e :: e in out <==> e in rows && Kept(e, from, to))
    && (forall i, j :: 0 <= i < j < |out| ==> TextLeq(out[i].start, out[j].start))
  }

  ghost predicate IsLast(rows: set<Entry>, last: Option<Entry>) {
    if last.None? then rows == {} else last.value in rows && forall e :: e in rows ==> TextLeq(e.start, last.value.start)
  }

  ghost predicate IsFirst(rows: set<Entry>, first: Option<Entry>) {
    if first.None? then rows == {} else first.value in rows && forall e :: e in rows ==> TextLeq(first.value.start, e.start)
  }

  /** The decision, given what the index answered. */
  function Resolve(last: Option<Entry>, entries: seq<Entry>, first: Option<Entry>, from: Time, now: Time): (r: Resolution) {
    if last.None? then
      if from > now then Ok(ZERO_TIME, Live) else Err
    else if from > last.value.end then Ok(ZERO_TIME, Live)
    else if |entries| > 0 then
      Ok(if from < entries[0].start then entries[0].start else from, Recorded)
    else if first.None? then Err
    else Ok(first.value.start, FirstAvailable)
  }

  ghost predicate Covered(rows: set<Entry>, t: Time) {
    exists e :: e in rows && e.start <= t <= e.end
  }

  ghost predicate CoveredFrom(rows: set<Entry>, from: Time) {
    exists t :: t >= from && Covered(rows, t)
  }

  /** `at` is the least covered instant not before `from`. */
  ghost predicate LeastCovered(rows: set<Entry>, from: Time, at: Time) {
    && from <= at && Covered(rows, at)
    && forall t :: from <= t && Covered(rows, t) ==> at <= t
  }

  // ---------------------------------------------------------------- text against time

  /** The range test and the listing order are comparisons of stored texts. */
  lemma IndexComparesText(e: Entry, from: Time, to: Time, d: Entry)
    requires from > ZERO_TIME && to > ZERO_TIME && Storable(from) && Storable(to)
    requires Storable(e.start) && Storable(e.end) && Storable(d.start)
    ensures Kept(e, from, to) <==> !TextLess(Text(e.end), Text(from)) && !TextLess(Text(to), Text(e.start))
    ensures Kept(e, from, ZERO_TIME) <==> !TextLess(Text(e.end), Text(from))
    ensures TextLeq(d.start, e.start) <==> !TextLess(Text(e.start), Text(d.start))
  {
    hide Text, TextLess, TextLeq, Storable;
    TextOrderIff(from, e.end);
    TextOrderIff(e.start, to);
    TextOrderIff(d.start, e.start);
  }

  ghost predicate ClearEnds(rows: set<Entry>, from: Time) {
    forall e :: e in rows ==> !Confused(from, e.end)
  }

  ghost predicate ClearStarts(rows: set<Entry>) {
    forall d, e :: d in rows && e in rows ==> !Confused(d.start, e.start)
  }

  /** Text and time agree on everything a request touches. */
  ghost predicate Clear(rows: set<Entry>, from: Time) {
    ClearEnds(rows, from) && ClearStarts(rows)
  }

  /** The open-ended range test in terms of time: reversed for a confused end. */
  predicate Passes(e: Entry, from: Time) {
    if Confused(from, e.end) then e.end < from else from <= e.end
  }

  lemma KeptIff(e: Entry, from: Time)
    requires from > ZERO_TIME && Storable(from) && Storable(e.end)
    ensures Kept(e, from, ZERO_TIME) <==> Passes(e, from)
  {
    TextLeqIs(from, e.end);
  }

  /** The query returns exactly the rows that end at or after the request if and only if no row's end is
      confused with it. */
  lemma QueryIsExactIff(rows: set<Entry>, from: Time)
    requires WellFormed(rows) && from > ZERO_TIME && Storable(from)
    ensures (forall e :: e in rows ==> (Kept(e, from, ZERO_TIME) <==> from <= e.end)) <==> ClearEnds(rows, from)
  {
    hide Kept, Confused, Storable;
    forall e | e in rows ensures Kept(e, from, ZERO_TIME) <==> Passes(e, from) {
      KeptIff(e, from);
    }
  }

  /** Head of the listing against another listed row. */
  lemma HeadFirst(rows: set<Entry>, from: Time, to: Time, entries: seq<Entry>, e: Entry)
    requires IsQuery(rows, from, to, entries) && e in entries && WellFormed(rows)
    ensures entries[0] in rows && Kept(entries[0], from, to)
    ensures !Confused(e.start, entries[0].start) ==> entries[0].start <= e.start
  {
    assert entries[0] in entries;
    var k :| 0 <= k < |entries| && entries[k] == e;
    if k > 0 {
      TextLeqIs(entries[0].start, e.start);
      assert Confused(entries[0].start, e.start) <==> Confused(e.start, entries[0].start);
    }
  }

  /** What the confusions may not do to the row listed first: keep it although it ended before the
      request, unless another row covers the answer; or hide a row, or list it too late, that would have
      been played earlier. */
  ghost predicate Undisturbed(rows: set<Entry>, from: Time, head: Entry) {
    && (from <= head.end || Covered(rows, Max(from, head.start)))
    && forall e :: e in rows && from <= e.end && (Confused(from, e.end) || Confused(e.start, head.start)) ==>
         head.start <= from || head.start <= e.start
  }

  /** The first row of an open-ended query decides the least covered instant exactly when undisturbed. */
  lemma HeadIsLeastIff(rows: set<Entry>, from: Time, entries: seq<Entry>)
    requires WellFormed(rows) && from > ZERO_TIME && Storable(from)
    requires IsQuery(rows, from, ZERO_TIME, entries) && entries != []
    ensures LeastCovered(rows, from, Max(from, entries[0].start)) <==> Undisturbed(rows, from, entries[0])
  {
    HeadFirst(rows, from, ZERO_TIME, entries, entries[0]);
    hide *;
    if Undisturbed(rows, from, entries[0]) { UndisturbedIsLeast(rows, from, entries); }
    if LeastCovered(rows, from, Max(from, entries[0].start)) { LeastIsUndisturbed(rows, from, entries[0]); }
  }

  lemma UndisturbedIsLeast(rows: set<Entry>, from: Time, entries: seq<Entry>)
    requires WellFormed(rows) && from > ZERO_TIME && Storable(from)
    requires IsQuery(rows, from, ZERO_TIME, entries) && entries != [] && Undisturbed(rows, from, entries[0])
    ensures LeastCovered(rows, from, Max(from, entries[0].start))
  {
    hide Kept, Confused, Storable, IsQuery;
    var head, at := entries[0], Max(from, entries[0].start);
    HeadFirst(rows, from, ZERO_TIME, entries, head);
    assert Covered(rows, at);
    forall t | from <= t && Covered(rows, t) ensures at <= t {
      var e :| e in rows && e.start <= t <= e.end;
      NoneEarlier(rows, from, entries, e);
    }
  }

  lemma NoneEarlier(rows: set<Entry>, from: Time, entries: seq<Entry>, e: Entry)
    requires WellFormed(rows) && from > ZERO_TIME && Storable(from)
    requires IsQuery(rows, from, ZERO_TIME, entries) && entries != [] && Undisturbed(rows, from, entries[0])
    requires e in rows && from <= e.end
    ensures entries[0].start <= from || entries[0].start <= e.start
  {
    hide Kept, Confused, Storable, IsQuery, Covered;
    KeptIff(e, from);
    Listed(rows, from, ZERO_TIME, entries, e);
    if e in entries { HeadFirst(rows, from, ZERO_TIME, entries, e); }
  }

  lemma Listed(rows: set<Entry>, from: Time, to: Time, entries: seq<Entry>, e: Entry)
    requires IsQuery(rows, from, to, entries)
    ensures e in entries <==> e in rows && Kept(e, from, to)
  {}

  lemma LeastIsUndisturbed(rows: set<Entry>, from: Time, head: Entry)
    requires WellFormed(rows) && from > ZERO_TIME && head in rows && LeastCovered(rows, from, Max(from, head.start))
    ensures Undisturbed(rows, from, head)
  {
    hide Confused, Storable;
    forall e | e in rows && from <= e.end && head.start > from ensures head.start <= e.start {
      assert Covered(rows, Max(from, e.start));
    }
  }

  /** A clear request is undisturbed. */
  lemma HeadIsLeast(rows: set<Entry>, from: Time, entries: seq<Entry>)
    requires WellFormed(rows) && from > ZERO_TIME && Storable(from) && Clear(rows, from)
    requires IsQuery(rows, from, ZERO_TIME, entries) && entries != []
    ensures LeastCovered(rows, from, Max(from, entries[0].start))
    ensures var at := Max(from, entries[0].start); entries[0].start <= at <= entries[0].end
  {
    HeadFirst(rows, from, ZERO_TIME, entries, entries[0]);
    KeptIff(entries[0], from);
    HeadIsLeastIff(rows, from, entries);
  }

  lemma NothingCovered(rows: set<Entry>, from: Time, entries: seq<Entry>)
    requires WellFormed(rows) && from > ZERO_TIME && Storable(from) && ClearEnds(rows, from)
    requires IsQuery(rows, from, ZERO_TIME, entries)
    ensures CoveredFrom(rows, from) <==> entries != []
  {
    if CoveredFrom(rows, from) {
      var t :| t >= from && Covered(rows, t);
      var e :| e in rows && e.start <= t <= e.end;
      KeptIff(e, from);
      assert e in entries;
    }
    if entries != [] {
      assert entries[0] in entries;
      KeptIff(entries[0], from);
      assert Covered(rows, entries[0].end);
    }
  }

  // ---------------------------------------------------------------- resolution

  /** No row passes the range test: each either ended before the request or is hidden by confusion. */
  ghost predicate AllDropped(rows: set<Entry>, from: Time) {
    forall e :: e in rows ==> (from <= e.end <==> Confused(from, e.end))
  }

  /** Open-ended resolution, the only kind the session asks for, in all cases: live exactly beyond the
      end of the last-started segment, first_available exactly when confusion hides every row that is
      left, at the first start in listing order, and a recorded answer is the least covered instant exactly when undisturbed. */
  lemma OpenEndedResolution(rows: set<Entry>, last: Option<Entry>, entries: seq<Entry>, first: Option<Entry>, from: Time, now: Time)
    requires WellFormed(rows) && from > ZERO_TIME && Storable(from)
    requires IsLast(rows, last) && IsFirst(rows, first) && IsQuery(rows, from, ZERO_TIME, entries)
    ensures var r := Resolve(last, entries, first, from, now);
            && (r.Err? <==> rows == {} && from <= now)
            && (r.Ok? && r.mode.Live? <==> if last.Some? then from > last.value.end else from > now)
            && (r.Ok? && r.mode.FirstAvailable? <==> last.Some? && from <= last.value.end && AllDropped(rows, from))
            && (r.Ok? && r.mode.FirstAvailable? ==> r.at != ZERO_TIME && forall e :: e in rows ==> TextLeq(r.at, e.start))
            && (r.Ok? && r.mode.Recorded? ==>
                  && entries != [] && r.at == Max(from, entries[0].start)
                  && (LeastCovered(rows, from, r.at) <==> Undisturbed(rows, from, entries[0])))
  {
    hide Kept, Confused, Storable, LeastCovered, Undisturbed, TextLeq;
    if entries != [] {
      HeadIsLeastIff(rows, from, entries);
      assert entries[0] in entries;
      KeptIff(entries[0], from);
    } else {
      forall e | e in rows ensures from <= e.end <==> Confused(from, e.end) {
        KeptIff(e, from);
        assert e !in entries;
      }
    }
  }

  /** A clear request never falls back to first_available, and a recorded answer is the least covered
      instant not before it. */
  lemma ClearResolution(rows: set<Entry>, last: Option<Entry>, entries: seq<Entry>, first: Option<Entry>, from: Time, now: Time)
    requires WellFormed(rows) && from > ZERO_TIME && Storable(from) && Clear(rows, from)
    requires IsLast(rows, last) && IsFirst(rows, first) && IsQuery(rows, from, ZERO_TIME, entries)
    ensures var r := Resolve(last, entries, first, from, now);
            && (r.Ok? ==> !r.mode.FirstAvailable?)
            && (r.Ok? && r.mode.Recorded? ==> LeastCovered(rows, from, r.at))
  {
    if last.Some? && from <= last.value.end {
      assert Covered(rows, last.value.end);
      NothingCovered(rows, from, entries);
      HeadIsLeast(rows, from, entries);
    }
  }

  /** The fallback is reachable: a request for a whole second, with the last segment ending within it. */
  lemma FirstAvailableReachedByText(e: Entry, from: Time, now: Time)
    requires WellFormed({e}) && Storable(from) && ZERO_TIME < from < e.end < from + SECOND && from % SECOND == 0
    ensures IsQuery({e}, from, ZERO_TIME, []) && IsLast({e}, Some(e)) && IsFirst({e}, Some(e))
    ensures CoveredFrom({e}, from)
    ensures Resolve(Some(e), [], Some(e), from, now) == Ok(e.start, FirstAvailable)
  {
    hide Kept, Confused, Storable, TextLeq;
    WholeSecondConfused(from, e.end);
    KeptIff(e, from);
    TextReflexive(e.start);
    assert Covered({e}, e.end);
  }

  /** The opposite failure: a segment that ended when the second began is kept, so a request later in
      that second is answered with its own time and no gap, although the next footage is far away. */
  lemma EndedRowKeptByText(e: Entry, l: Entry, from: Time, now: Time)
    requires WellFormed({e, l}) && Storable(from) && e.end % SECOND == 0 && ZERO_TIME < e.end < from < e.end + SECOND
    requires from + GAP_THRESHOLD <= l.start <= l.end
    ensures IsQuery({e, l}, from, ZERO_TIME, [e, l]) && IsLast({e, l}, Some(l)) && IsFirst({e, l}, Some(e))
    ensures Resolve(Some(l), [e, l], Some(e), from, now) == Ok(from, Recorded)
    ensures !GapReported(from, from) && forall t :: from <= t < from + GAP_THRESHOLD ==> !Covered({e, l}, t)
  {
    hide Kept, Confused, Storable, TextLeq;
    WholeSecondConfused(e.end, from);
    KeptIff(e, from);
    KeptIff(l, from);
    SecondsApart(from, l.end);
    SecondsApart(e.start, l.start);
    TextLeqIs(e.start, l.start);
    TextReflexive(e.start);
    TextReflexive(l.start);
  }

  lemma SecondsApart(a: Time, b: Time)
    requires a + SECOND <= b
    ensures !Confused(a, b)
  {}

  ghost predicate EndsLast(rows: set<Entry>, last: Entry) {
    forall e :: e in rows ==> e.end <= last.end
  }

  /** "Live" means "nothing recorded from here on" for every request exactly when the last-started
      segment is also the last to end; an interrupted last segment, with its zero end, breaks it. */
  lemma LiveMeansNothingLeftIff(rows: set<Entry>, last: Entry)
    requires WellFormed(rows) && IsLast(rows, Some(last))
    ensures (forall from :: from > ZERO_TIME ==> (from > last.end <==> !CoveredFrom(rows, from))) <==> EndsLast(rows, last)
  {
    if EndsLast(rows, last) {
      forall from | from > ZERO_TIME ensures from > last.end <==> !CoveredFrom(rows, from) {
        if CoveredFrom(rows, from) {
          var t :| t >= from && Covered(rows, t);
          var e :| e in rows && e.start <= t <= e.end;
        }
        if from <= last.end { assert last.start <= last.end; assert Covered(rows, last.end); }
      }
    } else {
      var e :| e in rows && e.end > last.end;
      assert last.end >= ZERO_TIME;
      assert Covered(rows, e.end);
      assert CoveredFrom(rows, e.end);
    }
  }

  // ---------------------------------------------------------------- resolution as a map on requests

  /** Something that passes the range test starts by y, and nothing that passes it and starts after y is
      listed in front of that through confusion. */
  ghost predicate Plays(rows: set<Entry>, from: Time, y: Time) {
    exists c :: c in rows && Passes(c, from) && c.start <= y && NoneJumps(rows, from, y, c)
  }

  ghost predicate NoneJumps(rows: set<Entry>, from: Time, y: Time, c: Entry) {
    forall d :: d in rows && Passes(d, from) && y < d.start ==> !Confused(d.start, c.start)
  }

  lemma ListedIff(rows: set<Entry>, from: Time, entries: seq<Entry>, e: Entry)
    requires WellFormed(rows) && from > ZERO_TIME && Storable(from) && IsQuery(rows, from, ZERO_TIME, entries)
    ensures e in entries <==> e in rows && Passes(e, from)
  {
    Listed(rows, from, ZERO_TIME, entries, e);
    if e in rows { KeptIff(e, from); }
  }

  lemma HeadPlays(rows: set<Entry>, from: Time, entries: seq<Entry>, y: Time)
    requires WellFormed(rows) && from > ZERO_TIME && Storable(from) && IsQuery(rows, from, ZERO_TIME, entries)
    ensures entries != [] && entries[0].start <= y <==> Plays(rows, from, y)
  {
    hide Kept, Confused, Storable, IsQuery, WellFormed, Passes;
    if entries != [] && entries[0].start <= y {
      var c := entries[0];
      assert c in entries;
      ListedIff(rows, from, entries, c);
      forall d | d in rows && Passes(d, from) && y < d.start ensures !Confused(d.start, c.start) {
        ListedIff(rows, from, entries, d);
        HeadNotAfter(rows, from, entries, d);
      }
      assert NoneJumps(rows, from, y, c);
    }
    if c :| c in rows && Passes(c, from) && c.start <= y && NoneJumps(rows, from, y, c) {
      ListedIff(rows, from, entries, c);
      HeadFirst(rows, from, ZERO_TIME, entries, c);
      assert entries[0] in entries;
      ListedIff(rows, from, entries, entries[0]);
      assert y < entries[0].start ==> !Confused(entries[0].start, c.start);
      assert Confused(c.start, entries[0].start) <==> Confused(entries[0].start, c.start) by { TextLeqIs(c.start, entries[0].start); }
    }
  }

  /** A listed row that starts after the head is not confused with it. */
  lemma HeadNotAfter(rows: set<Entry>, from: Time, entries: seq<Entry>, d: Entry)
    requires WellFormed(rows) && IsQuery(rows, from, ZERO_TIME, entries) && d in entries && entries[0].start < d.start
    ensures !Confused(d.start, entries[0].start)
  {
    hide Kept, Confused, Storable;
    assert entries[0] in entries;
    var k :| 0 <= k < |entries| && entries[k] == d;
    TextLeqIs(entries[0].start, d.start);
    TextLeqIs(entries[0].start, d.start);
  }

  /** For every open-ended request and every y not before it: the answer is recorded at or before y
      exactly when the request is not beyond the last end and something plays by y. */
  lemma RecordedByIff(rows: set<Entry>, last: Option<Entry>, entries: seq<Entry>, first: Option<Entry>, from: Time, now: Time, y: Time)
    requires WellFormed(rows) && ZERO_TIME < from <= y && Storable(from)
    requires IsLast(rows, last) && IsFirst(rows, first) && IsQuery(rows, from, ZERO_TIME, entries)
    ensures var r := Resolve(last, entries, first, from, now);
            r.Ok? && r.mode.Recorded? && r.at <= y <==> last.Some? && from <= last.value.end && Plays(rows, from, y)
  {
    hide IsQuery, Plays, Storable, WellFormed, TextLeq;
    HeadPlays(rows, from, entries, y);
  }

  /** Over two requests: a recorded answer is never before its request; live stays live for the later
      one; and when the later one is recorded, the earlier one is recorded no later exactly when something
      plays for it by then, which holds for clear requests. */
  lemma ResolutionIsMonotoneIff(rows: set<Entry>, last: Option<Entry>, first: Option<Entry>, a: Time, b: Time, now: Time,
                                qa: seq<Entry>, qb: seq<Entry>)
    requires WellFormed(rows) && ZERO_TIME < a <= b && Storable(a) && Storable(b)
    requires IsLast(rows, last) && IsFirst(rows, first) && IsQuery(rows, a, ZERO_TIME, qa) && IsQuery(rows, b, ZERO_TIME, qb)
    ensures var p, q := Resolve(last, qa, first, a, now), Resolve(last, qb, first, b, now);
            && (p.Ok? && p.mode.Recorded? ==> a <= p.at)
            && (p.Ok? && p.mode.Live? ==> q == p)
            && (q.Ok? && q.mode.Recorded? ==>
                  && (p.Ok? && p.mode.Recorded? && p.at <= q.at <==> Plays(rows, a, q.at))
                  && (Clear(rows, a) && Clear(rows, b) ==> Plays(rows, a, q.at)))
  {
    hide IsQuery, Clear, Covered, TextLeq, Storable, WellFormed, Plays;
    var q := Resolve(last, qb, first, b, now);
    if q.Ok? && q.mode.Recorded? {
      RecordedByIff(rows, last, qa, first, a, now, q.at);
      if Clear(rows, a) && Clear(rows, b) {
        ClearResolution(rows, last, qa, first, a, now);
        ClearResolution(rows, last, qb, first, b, now);
      }
    }
  }

  /** Resolving a recorded answer again returns it unchanged exactly when it is not beyond the last end and
      something plays for it at once; for clear requests it always does. */
  lemma ResolutionIsIdempotentIff(rows: set<Entry>, last: Option<Entry>, first: Option<Entry>, a: Time, now: Time,
                                  qa: seq<Entry>, again: seq<Entry>)
    requires WellFormed(rows) && ZERO_TIME < a && Storable(a) && IsLast(rows, last) && IsFirst(rows, first)
    requires IsQuery(rows, a, ZERO_TIME, qa) && Resolve(last, qa, first, a, now).Ok? && Resolve(last, qa, first, a, now).mode.Recorded?
    requires IsQuery(rows, Resolve(last, qa, first, a, now).at, ZERO_TIME, again)
    ensures var p := Resolve(last, qa, first, a, now);
            && (Resolve(last, again, first, p.at, now) == p <==> p.at <= last.value.end && Plays(rows, p.at, p.at))
            && (Clear(rows, a) && Clear(rows, p.at) ==> Resolve(last, again, first, p.at, now) == p)
  {
    hide Kept, Confused, Storable, TextLeq, Covered, Plays, Clear;
    var p := Resolve(last, qa, first, a, now);
    assert Storable(p.at) by { assert qa[0] in qa; }
    hide WellFormed, IsQuery;
    RecordedByIff(rows, last, again, first, p.at, now, p.at);
    if Clear(rows, a) && Clear(rows, p.at) { ClearIsIdempotent(rows, last, first, a, now, qa, again); }
  }

  lemma ClearIsIdempotent(rows: set<Entry>, last: Option<Entry>, first: Option<Entry>, a: Time, now: Time,
                          qa: seq<Entry>, again: seq<Entry>)
    requires WellFormed(rows) && ZERO_TIME < a && Storable(a) && IsLast(rows, last) && IsFirst(rows, first)
    requires IsQuery(rows, a, ZERO_TIME, qa) && Resolve(last, qa, first, a, now).Ok? && Resolve(last, qa, first, a, now).mode.Recorded?
    requires var at := Resolve(last, qa, first, a, now).at;
             Storable(at) && Clear(rows, a) && Clear(rows, at) && IsQuery(rows, at, ZERO_TIME, again)
    ensures var p := Resolve(last, qa, first, a, now); Resolve(last, again, first, p.at, now) == p
  {
    hide Kept, Confused, Storable, TextLeq, Covered;
    var at := Resolve(last, qa, first, a, now).at;
    ClearResolution(rows, last, qa, first, a, now);
    assert at <= last.value.end by {
      KeptIff(last.value, a);
      assert last.value in qa;
      HeadFirst(rows, a, ZERO_TIME, qa, last.value);
    }
    ClearResolution(rows, last, again, first, at, now);
    hide IsQuery, Clear;
  }

  /** Idempotence fails on a segment that starts on a whole second and ends within it: an earlier request
      is answered with its start, and asking again for that start falls back to first_available. */
  lemma AnswerNotIdempotent(e: Entry, a: Time, now: Time)
    requires WellFormed({e}) && Storable(a) && e.start % SECOND == 0 && ZERO_TIME < a < e.start < e.end < e.start + SECOND
    ensures IsLast({e}, Some(e)) && IsFirst({e}, Some(e))
    ensures IsQuery({e}, a, ZERO_TIME, [e]) && Resolve(Some(e), [e], Some(e), a, now) == Ok(e.start, Recorded)
    ensures IsQuery({e}, e.start, ZERO_TIME, []) && Resolve(Some(e), [], Some(e), e.start, now) == Ok(e.start, FirstAvailable)
  {
    hide Kept, Confused, Storable, TextLeq;
    EarlierSecond(a, e.start, e.end);
    KeptIff(e, a);
    FirstAvailableReachedByText(e, e.start, now);
  }

  lemma NotSelfConfused(t: Time)
    ensures !Confused(t, t)
  {}

  lemma EarlierSecond(a: Time, s: Time, b: Time)
    requires a < s <= b && s % SECOND == 0
    ensures !Confused(a, b)
  {}

  /** Monotonicity fails on a segment that ends within a second: a request for the second falls back to
      first_available, a later one for the very end is recorded. */
  lemma AnswerNotMonotone(e: Entry, a: Time, now: Time)
    requires WellFormed({e}) && Storable(a) && a % SECOND == 0 && ZERO_TIME < a < e.end < a + SECOND && e.start <= e.end
    ensures IsLast({e}, Some(e)) && IsFirst({e}, Some(e))
    ensures IsQuery({e}, a, ZERO_TIME, []) && Resolve(Some(e), [], Some(e), a, now) == Ok(e.start, FirstAvailable)
    ensures IsQuery({e}, e.end, ZERO_TIME, [e]) && Resolve(Some(e), [e], Some(e), e.end, now) == Ok(e.end, Recorded)
  {
    hide Kept, Confused, Storable, TextLeq;
    NotSelfConfused(e.end);
    KeptIff(e, e.end);
    FirstAvailableReachedByText(e, a, now);
  }

  /** Some row that ended before the request is kept all the same. */
  ghost predicate KeepsEnded(rows: set<Entry>, from: Time) {
    exists w :: w in rows && w.end < from && Confused(from, w.end)
  }

  /** Every row hidden by confusion has another behind which it would have come anyway. */
  ghost predicate HiddenShadowed(rows: set<Entry>, from: Time) {
    forall h :: h in rows && from <= h.end && Confused(from, h.end) ==> Shadowed(rows, from, h)
  }

  ghost predicate Shadowed(rows: set<Entry>, from: Time, h: Entry) {
    exists e :: e in rows && from <= e.end && !Confused(from, e.end) && e.start <= Max(from, h.start)
  }

  /** From rows and request alone, for starts that are not confused with one another: a recorded answer is
      the least covered instant exactly when the request itself is covered, should an ended row be kept,
      and otherwise when every hidden row is shadowed by one that is not. */
  lemma RecordedAnswerIsLeastIff(rows: set<Entry>, last: Option<Entry>, entries: seq<Entry>, first: Option<Entry>, from: Time, now: Time)
    requires WellFormed(rows) && from >= SECOND && Storable(from) && ClearStarts(rows)
    requires IsLast(rows, last) && IsFirst(rows, first) && IsQuery(rows, from, ZERO_TIME, entries)
    requires Resolve(last, entries, first, from, now).Ok? && Resolve(last, entries, first, from, now).mode.Recorded?
    ensures LeastCovered(rows, from, Resolve(last, entries, first, from, now).at) <==>
            if KeepsEnded(rows, from) then Covered(rows, from) else HiddenShadowed(rows, from)
  {
    hide IsQuery, IsLast, IsFirst, Confused, Storable, Kept, TextLeq, Covered, KeepsEnded, HiddenShadowed, LeastCovered, WellFormed;
    if KeepsEnded(rows, from) { EndedKept(rows, from, entries); } else { NoEndedKept(rows, from, entries); }
  }

  lemma EndedKept(rows: set<Entry>, from: Time, entries: seq<Entry>)
    requires WellFormed(rows) && from >= SECOND && Storable(from) && ClearStarts(rows) && KeepsEnded(rows, from)
    requires IsQuery(rows, from, ZERO_TIME, entries) && entries != []
    ensures LeastCovered(rows, from, Max(from, entries[0].start)) <==> Covered(rows, from)
  {
    var w :| w in rows && w.end < from && Confused(from, w.end);
    assert w.end != ZERO_TIME;
    hide Confused, Storable, Kept, IsQuery;
    ListedIff(rows, from, entries, w);
    HeadFirst(rows, from, ZERO_TIME, entries, w);
  }

  lemma NoEndedKept(rows: set<Entry>, from: Time, entries: seq<Entry>)
    requires WellFormed(rows) && from >= SECOND && Storable(from) && ClearStarts(rows) && !KeepsEnded(rows, from)
    requires IsQuery(rows, from, ZERO_TIME, entries) && entries != []
    ensures LeastCovered(rows, from, Max(from, entries[0].start)) <==> HiddenShadowed(rows, from)
  {
    hide Confused, Storable, Kept, IsQuery, Covered, LeastCovered;
    var head := entries[0];
    assert head in entries;
    ListedIff(rows, from, entries, head);
    HeadIsLeastIff(rows, from, entries);
    if Undisturbed(rows, from, head) {
      forall h | h in rows && from <= h.end && Confused(from, h.end) ensures Shadowed(rows, from, h) {
        assert head in rows && from <= head.end && !Confused(from, head.end);
      }
    }
    if HiddenShadowed(rows, from) {
      forall h | h in rows && from <= h.end && Confused(from, h.end) ensures head.start <= from || head.start <= h.start {
        assert Shadowed(rows, from, h);
        var e :| e in rows && from <= e.end && !Confused(from, e.end) && e.start <= Max(from, h.start);
        ListedIff(rows, from, entries, e);
        HeadFirst(rows, from, ZERO_TIME, entries, e);
      }
    }
  }

  ghost predicate DistinctStarts(rows: set<Entry>) {
    forall d, e :: d in rows && e in rows && d.start == e.start ==> d == e
  }

  /** The order of the listing in terms of time: reversed for confused starts. */
  predicate ListedBefore(c: Entry, d: Entry) {
    if Confused(c.start, d.start) then d.start < c.start else c.start <= d.start
  }

  /** c contains the position, its end is not confused with it, and it is listed in front of every row
      that passes the range test. */
  ghost predicate OpensAt(rows: set<Entry>, at: Time, c: Entry) {
    && c in rows && c.start <= at <= c.end && !Confused(at, c.end)
    && forall d :: d in rows && Passes(d, at) ==> ListedBefore(c, d)
  }

  /** The playback factory queries again from the announced position. The segment it opens first, with
      the files in place, contains that position exactly when some segment does whose end is not
      confused with it and which neither a wrongly kept segment nor confused starts push back. */
  lemma FactoryOpensAnnouncedSegmentIff(rows: set<Entry>, at: Time, again: seq<Entry>)
    requires WellFormed(rows) && at > ZERO_TIME && Storable(at) && DistinctStarts(rows)
    requires IsQuery(rows, at, ZERO_TIME, again)
    ensures (again != [] && again[0].start <= at <= again[0].end) <==> exists c :: OpensAt(rows, at, c)
  {
    hide Kept, Confused, Storable, TextLeq, IsQuery, ListedBefore;
    if again != [] && again[0].start <= at <= again[0].end {
      assert again[0] in again;
      ListedIff(rows, at, again, again[0]);
      forall d | d in rows && Passes(d, at) ensures ListedBefore(again[0], d) {
        ListedIff(rows, at, again, d);
        HeadListedBefore(rows, at, again, d);
      }
      assert OpensAt(rows, at, again[0]);
    }
    if c :| OpensAt(rows, at, c) {
      ListedIff(rows, at, again, c);
      assert again[0] in again;
      ListedIff(rows, at, again, again[0]);
      HeadListedBefore(rows, at, again, c);
      assert ListedBefore(c, again[0]);
      ListedSame(c, again[0]);
    }
  }

  lemma HeadListedBefore(rows: set<Entry>, at: Time, again: seq<Entry>, d: Entry)
    requires WellFormed(rows) && IsQuery(rows, at, ZERO_TIME, again) && d in again
    ensures ListedBefore(again[0], d)
  {
    hide Kept, Storable;
    assert again[0] in again;
    var k :| 0 <= k < |again| && again[k] == d;
    TextLeqIs(again[0].start, d.start);
    if k == 0 { TextReflexive(d.start); }
    hide Confused, TextLeq;
  }

  lemma ListedSame(c: Entry, d: Entry)
    requires ListedBefore(c, d) && ListedBefore(d, c)
    ensures c.start == d.start
  {
    hide Confused;
    TextLeqIs(c.start, d.start);
  }

  /** Confused starts push the right segment back: one starts on a whole second and contains the position,
      another starts later in that second; the factory opens the other, past the position. */
  lemma LaterStartOpenedFirst(c: Entry, d: Entry, at: Time)
    requires WellFormed({c, d}) && Storable(at) && c.start % SECOND == 0 && c.start < at < d.start < c.start + SECOND
    requires c.start + 2 * SECOND <= c.end && c.start + 2 * SECOND <= d.end
    ensures IsQuery({c, d}, at, ZERO_TIME, [d, c]) && c.start <= at <= c.end && at < d.start
  {
    hide Kept, Confused, Storable, TextLeq;
    SecondsApart(at, c.end);
    SecondsApart(at, d.end);
    KeptIff(c, at);
    KeptIff(d, at);
    WholeSecondConfused(c.start, d.start);
    TextLeqIs(d.start, c.start);
  }

  /** For clear requests it is the very segment the resolution found. */
  lemma FactoryOpensAnnouncedSegment(rows: set<Entry>, from: Time, entries: seq<Entry>, again: seq<Entry>)
    requires WellFormed(rows) && from > ZERO_TIME && Storable(from) && IsQuery(rows, from, ZERO_TIME, entries) && entries != []
    requires var at := Max(from, entries[0].start);
             Clear(rows, from) && Clear(rows, at) && IsQuery(rows, at, ZERO_TIME, again)
    ensures var at := Max(from, entries[0].start);
            && again != [] && again[0].start <= at <= again[0].end
            && (DistinctStarts(rows) ==> again[0] == entries[0])
  {
    var at, head := Max(from, entries[0].start), entries[0];
    HeadIsLeast(rows, from, entries);
    HeadFirst(rows, from, ZERO_TIME, entries, head);
    KeptIff(head, at);
    assert head in again;
    HeadFirst(rows, at, ZERO_TIME, again, head);
    HeadIsLeast(rows, at, again);
    KeptIff(again[0], from);
    HeadFirst(rows, from, ZERO_TIME, entries, again[0]);
  }

  /** The gap flag of a recorded seek. */
  predicate GapReported(seek: Time, at: Time) {
    at - seek >= GAP_THRESHOLD
  }

  ghost predicate FiveSecondsEmpty(rows: set<Entry>, from: Time) {
    forall t :: from <= t < from + GAP_THRESHOLD ==> !Covered(rows, t)
  }

  lemma GapAtLeastCovered(rows: set<Entry>, seek: Time, at: Time)
    requires LeastCovered(rows, seek, at)
    ensures GapReported(seek, at) <==> FiveSecondsEmpty(rows, seek)
  {
    if !GapReported(seek, at) { assert Covered(rows, at); }
  }

  /** A recorded answer reports a gap exactly when nothing plays within five seconds of the request; that
      is when nothing is covered there, for an answer at the least covered instant and so for every clear
      request. */
  lemma GapIffFiveSecondsEmpty(rows: set<Entry>, last: Option<Entry>, entries: seq<Entry>, first: Option<Entry>, from: Time, now: Time)
    requires WellFormed(rows) && from > ZERO_TIME && Storable(from)
    requires IsLast(rows, last) && IsFirst(rows, first) && IsQuery(rows, from, ZERO_TIME, entries)
    requires Resolve(last, entries, first, from, now).Ok? && Resolve(last, entries, first, from, now).mode.Recorded?
    ensures var at := Resolve(last, entries, first, from, now).at;
            && (GapReported(from, at) <==> !Plays(rows, from, from + GAP_THRESHOLD - 1))
            && (LeastCovered(rows, from, at) || Clear(rows, from) ==> (GapReported(from, at) <==> FiveSecondsEmpty(rows, from)))
  {
    hide IsQuery, IsLast, IsFirst, Clear, Covered, Plays, Storable, WellFormed, FiveSecondsEmpty, LeastCovered;
    var at := Resolve(last, entries, first, from, now).at;
    RecordedByIff(rows, last, entries, first, from, now, from + GAP_THRESHOLD - 1);
    if Clear(rows, from) { ClearResolution(rows, last, entries, first, from, now); }
    if LeastCovered(rows, from, at) { GapAtLeastCovered(rows, from, at); }
  }

  ghost predicate ClearBounds(rows: set<Entry>, from: Time, to: Time) {
    forall e :: e in rows ==> !Confused(from, e.end) && !Confused(e.start, to)
  }

  lemma KeptBetween(e: Entry, from: Time, to: Time)
    requires ZERO_TIME < from <= to && Storable(from) && Storable(to) && Storable(e.start) && Storable(e.end)
    requires !Confused(from, e.end) && !Confused(e.start, to)
    ensures Kept(e, from, to) <==> from <= e.end && e.start <= to
  {
    TextLeqIs(from, e.end);
    TextLeqIs(e.start, to);
  }

  /** A bounded request falls back to first_available exactly when it is not beyond the last end and no
      row passes both range tests; with clear bounds, when nothing between them is covered. */
  lemma BoundedRequestFallsBack(rows: set<Entry>, last: Option<Entry>, entries: seq<Entry>, first: Option<Entry>,
                                from: Time, to: Time, now: Time)
    requires WellFormed(rows) && ZERO_TIME < from <= to && Storable(from) && Storable(to)
    requires IsLast(rows, last) && IsFirst(rows, first) && IsQuery(rows, from, to, entries)
    ensures var r := Resolve(last, entries, first, from, now);
            var fallsBack := r.Ok? && r.mode.FirstAvailable?;
            && (fallsBack <==> last.Some? && from <= last.value.end && forall e :: e in rows ==> !Kept(e, from, to))
            && (ClearBounds(rows, from, to) ==>
                  (fallsBack <==> last.Some? && from <= last.value.end && forall t :: from <= t <= to ==> !Covered(rows, t)))
  {
    hide Kept, Confused, Storable;
    if entries != [] { assert entries[0] in entries; }
    if ClearBounds(rows, from, to) {
      forall e | e in rows ensures Kept(e, from, to) <==> from <= e.end && e.start <= to {
        KeptBetween(e, from, to);
      }
      forall e | e in rows && from <= e.end && e.start <= to ensures Covered(rows, Max(from, e.start)) {}
    }
  }
}
