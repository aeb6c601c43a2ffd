/** Retention (pkg/recorder/retention.go and enforceRetention in pkg/recorder/recorder.go).

`Marks` is what the three in-place passes leave in the flag array. `MarkedIff` says, without
mentioning passes or running totals, which segments those are.
*/
module Retention {
  import opened Wrappers
  import opened Recording

  /** Byte bounds are None when the GB setting is zero or negative. */
  datatype Policy = Policy(
    continuousDays: int,
    motionDays: int,
    objectDays: int,
    maxBytes: Option<int>,
    minFreeBytes: Option<int>,
    diskFree: int)

  function TierCutoff(e: Entry, p: Policy, now: Time): (cutoff: Option<Time>) {
    if e.hasObjects && p.objectDays > 0 then Some(now - p.objectDays * DAY)
    else if e.hasMotion && p.motionDays > 0 then Some(now - p.motionDays * DAY)
    else if p.continuousDays > 0 then Some(now - p.continuousDays * DAY)
    else None
  }

  predicate Expired(e: Entry, p: Policy, now: Time) {
    TierCutoff(e, p, now).Some? && e.start < TierCutoff(e, p, now).value
  }

  /** The disk-free pass runs, which is also when the batch limit is lifted. */
  predicate DiskCritical(p: Policy) {
    p.minFreeBytes.Some? && 0 < p.diskFree < p.minFreeBytes.value
  }

  // ---------------------------------------------------------------- the passes

  /** Bytes of the unflagged entries from i on. */
  function Unflagged(es: seq<Entry>, flags: seq<bool>, i: nat): int
    requires i <= |es| == |flags|
    decreases |es| - i
  {
    if i == |es| then 0 else (if flags[i] then 0 else es[i].size) + Unflagged(es, flags, i + 1)
  }

  /** First position from i on at which the unflagged bytes fit the limit. */
  function CutAt(es: seq<Entry>, flags: seq<bool>, i: nat, limit: int): (c: nat)
    requires i <= |es| == |flags|
    ensures i <= c <= |es|
    decreases |es| - i
  {
    if i == |es| || Unflagged(es, flags, i) <= limit then i else CutAt(es, flags, i + 1, limit)
  }

  function FlagBefore(flags: seq<bool>, c: nat): (r: seq<bool>)
    ensures |r| == |flags|
    ensures forall i :: 0 <= i < |r| ==> r[i] == (flags[i] || i < c)
  {
    seq(|flags|, i requires 0 <= i < |flags| => flags[i] || i < c)
  }

  function Total(es: seq<Entry>): int {
    if es == [] then 0 else es[0].size + Total(es[1..])
  }

  method ApplyTimeTiers(es: seq<Entry>, deleted: array<bool>, p: Policy, now: Time)
    requires deleted.Length == |es|
    modifies deleted
    ensures forall i :: 0 <= i < |es| ==> deleted[i] == (old(deleted[i]) || Expired(es[i], p, now))
  {
    for i := 0 to |es|
      invariant forall j :: 0 <= j < i ==> deleted[j] == (old(deleted[j]) || Expired(es[j], p, now))
      invariant forall j :: i <= j < |es| ==> deleted[j] == old(deleted[j])
    {
      var cutoff := TierCutoff(es[i], p, now);
      if cutoff.Some? && es[i].start < cutoff.value {
        deleted[i] := true;
      }
    }
  }

  method ApplyStorageCap(es: seq<Entry>, deleted: array<bool>, p: Policy)
    requires deleted.Length == |es|
    modifies deleted
    ensures p.maxBytes.None? ==> deleted[..] == old(deleted[..])
    ensures p.maxBytes.Some? ==>
              deleted[..] == FlagBefore(old(deleted[..]), CutAt(es, old(deleted[..]), 0, p.maxBytes.value))
  {
    if p.maxBytes.None? {
      return;
    }
    ghost var was := deleted[..];
    var total := 0;
    for i := 0 to |es|
      invariant deleted[..] == was
      invariant total == Unflagged(es, was, 0) - Unflagged(es, was, i)
    {
      if !deleted[i] {
        total := total + es[i].size;
      }
    }
    var i := 0;
    while i < |es| && total > p.maxBytes.value
      invariant 0 <= i <= |es|
      invariant total == Unflagged(es, was, i)
      invariant CutAt(es, was, 0, p.maxBytes.value) == CutAt(es, was, i, p.maxBytes.value)
      invariant forall j :: 0 <= j < |es| ==> deleted[j] == (was[j] || j < i)
    {
      if !deleted[i] {
        deleted[i] := true;
        total := total - es[i].size;
      }
      i := i + 1;
    }
  }

  method ApplyDiskFreeCap(es: seq<Entry>, deleted: array<bool>, p: Policy)
    requires deleted.Length == |es|
    modifies deleted
    ensures !DiskCritical(p) ==> deleted[..] == old(deleted[..])
    ensures DiskCritical(p) ==>
              deleted[..] == FlagBefore(old(deleted[..]), CutAt(es, old(deleted[..]), 0, DiskLimit(es, p)))
  {
    if p.minFreeBytes.None? || p.diskFree <= 0 {
      return;
    }
    if p.diskFree >= p.minFreeBytes.value {
      return;
    }
    ghost var was := deleted[..];
    var deficit := p.minFreeBytes.value - p.diskFree;
    assert es[..0] == [] && es[..|es|] == es;
    for i := 0 to |es|
      invariant deleted[..] == was
      invariant deficit == p.minFreeBytes.value - p.diskFree
                           - (Total(es[..i]) - (Unflagged(es, was, 0) - Unflagged(es, was, i)))
    {
      TotalSnoc(es, i);
      if deleted[i] {
        deficit := deficit - es[i].size;
      }
    }
    var i := 0;
    while i < |es| && deficit > 0
      invariant 0 <= i <= |es|
      invariant deficit == Unflagged(es, was, i) - DiskLimit(es, p)
      invariant CutAt(es, was, 0, DiskLimit(es, p)) == CutAt(es, was, i, DiskLimit(es, p))
      invariant forall j :: 0 <= j < |es| ==> deleted[j] == (was[j] || j < i)
    {
      if !deleted[i] {
        deleted[i] := true;
        deficit := deficit - es[i].size;
      }
      i := i + 1;
    }
  }

  /** How many bytes may stay for the disk to be back at its minimum. */
  function DiskLimit(es: seq<Entry>, p: Policy): int
    requires p.minFreeBytes.Some?
  {
    Total(es) - (p.minFreeBytes.value - p.diskFree)
  }

  lemma {:induction false} TotalSnoc(es: seq<Entry>, i: nat)
    requires i < |es|
    ensures Total(es[..i + 1]) == Total(es[..i]) + es[i].size
  {
    if i == 0 {
      assert es[..1][1..] == [] && es[..0] == [];
    } else {
      TotalSnoc(es[1..], i - 1);
      assert es[..i + 1][1..] == es[1..][..i] && es[..i][1..] == es[1..][..i - 1];
    }
  }

  function ExpiredMarks(es: seq<Entry>, p: Policy, now: Time): (r: seq<bool>)
    ensures |r| == |es| && forall i :: 0 <= i < |es| ==> r[i] == Expired(es[i], p, now)
  {
    seq(|es|, i requires 0 <= i < |es| => Expired(es[i], p, now))
  }

  function AfterCap(es: seq<Entry>, flags: seq<bool>, p: Policy): (r: seq<bool>)
    requires |flags| == |es|
    ensures |r| == |es|
  {
    if p.maxBytes.None? then flags else FlagBefore(flags, CutAt(es, flags, 0, p.maxBytes.value))
  }

  /** The flag array after all three passes. */
  function Marks(es: seq<Entry>, p: Policy, now: Time): (r: seq<bool>)
    ensures |r| == |es|
  {
    var flags := AfterCap(es, ExpiredMarks(es, p, now), p);
    if DiskCritical(p) then FlagBefore(flags, CutAt(es, flags, 0, DiskLimit(es, p))) else flags
  }

  function Select(es: seq<Entry>, flags: seq<bool>): (r: seq<Entry>)
    requires |flags| == |es|
    ensures forall e :: e in r ==> e in es
  {
    if es == [] then [] else (if flags[0] then [es[0]] else []) + Select(es[1..], flags[1..])
  }

  function Victims(es: seq<Entry>, p: Policy, now: Time): (r: seq<Entry>)
    ensures forall e :: e in r ==> e in es
  {
    Select(es, Marks(es, p, now))
  }

  method EvaluateRetention(es: seq<Entry>, p: Policy, now: Time) returns (result: seq<Entry>)
    ensures result == Victims(es, p, now)
  {
    if |es| == 0 {
      return [];
    }
    var deleted := new bool[|es|](_ => false);
    ApplyTimeTiers(es, deleted, p, now);
    assert deleted[..] == ExpiredMarks(es, p, now);
    ApplyStorageCap(es, deleted, p);
    ApplyDiskFreeCap(es, deleted, p);
    assert deleted[..] == Marks(es, p, now);
    assert Victims(es, p, now) == Select(es, deleted[..]);
    hide *;
    result := [];
    ghost var flags := deleted[..];
    assert es[0..] == es && flags[0..] == flags;
    for i := 0 to |es|
      invariant deleted[..] == flags
      invariant result + Select(es[i..], flags[i..]) == Select(es, flags)
    {
      SelectStep(result, es, flags, i);
      if deleted[i] {
        result := result + [es[i]];
      }
    }
    SelectNone(result, es, flags);
  }

  lemma SelectStep(acc: seq<Entry>, es: seq<Entry>, flags: seq<bool>, i: nat)
    requires i < |es| == |flags|
    ensures acc + Select(es[i..], flags[i..])
            == (if flags[i] then acc + [es[i]] else acc) + Select(es[i + 1..], flags[i + 1..])
  {
    assert es[i..][1..] == es[i + 1..] && flags[i..][1..] == flags[i + 1..];
  }

  lemma SelectNone(acc: seq<Entry>, es: seq<Entry>, flags: seq<bool>)
    requires |es| == |flags|
    ensures acc + Select(es[|es|..], flags[|es|..]) == acc
  {}

  // ---------------------------------------------------------------- what is deleted

  /** Bytes of the unexpired entries. */
  function Live(es: seq<Entry>, p: Policy, now: Time): int {
    if es == [] then 0 else (if Expired(es[0], p, now) then 0 else es[0].size) + Live(es[1..], p, now)
  }

  /** Bytes freed by deleting everything expired and everything older than position i. */
  function FreedBefore(es: seq<Entry>, i: nat, p: Policy, now: Time): int
    requires i <= |es|
  {
    Total(es) - Live(es[i..], p, now)
  }

  ghost predicate NonNegativeSizes(es: seq<Entry>) {
    forall e :: e in es ==> e.size >= 0
  }

  /** Entry i must go: it outlived its tier, or the unexpired footage from it on is over the cap, or
      deleting everything expired and everything older would still leave too little free space. */
  predicate Doomed(es: seq<Entry>, i: nat, p: Policy, now: Time)
    requires i < |es|
  {
    || Expired(es[i], p, now)
    || (p.maxBytes.Some? && Live(es[i..], p, now) > p.maxBytes.value)
    || (DiskCritical(p) && p.diskFree + FreedBefore(es, i, p, now) < p.minFreeBytes.value)
  }

  lemma {:induction false} UnflaggedIsLive(es: seq<Entry>, p: Policy, now: Time, i: nat)
    requires i <= |es|
    ensures Unflagged(es, ExpiredMarks(es, p, now), i) == Live(es[i..], p, now)
    decreases |es| - i
  {
    if i < |es| {
      UnflaggedIsLive(es, p, now, i + 1);
      assert es[i..][1..] == es[i + 1..];
    }
  }

  lemma {:induction false} UnflaggedAfterCut(es: seq<Entry>, flags: seq<bool>, c: nat, i: nat)
    requires i <= |es| == |flags| && c <= |es|
    ensures Unflagged(es, FlagBefore(flags, c), i) == Unflagged(es, flags, Max(i, c))
    decreases |es| - i
  {
    if i < |es| { UnflaggedAfterCut(es, flags, c, i + 1); }
  }

  lemma {:induction false} UnflaggedDecreases(es: seq<Entry>, flags: seq<bool>, i: nat, j: nat)
    requires i <= j <= |es| == |flags| && NonNegativeSizes(es)
    ensures Unflagged(es, flags, i) >= Unflagged(es, flags, j)
    decreases j - i
  {
    if i < j {
      assert es[i] in es;
      UnflaggedDecreases(es, flags, i + 1, j);
    }
  }

  /** With non-negative sizes the cut separates positions by the limit test alone. */
  lemma {:induction false} CutSeparates(es: seq<Entry>, flags: seq<bool>, i: nat, limit: int, k: nat)
    requires i <= k < |es| == |flags| && NonNegativeSizes(es)
    ensures k < CutAt(es, flags, i, limit) <==> Unflagged(es, flags, k) > limit
    decreases |es| - i
  {
    UnflaggedDecreases(es, flags, i, k);
    if Unflagged(es, flags, i) > limit && i < k {
      CutSeparates(es, flags, i + 1, limit, k);
    }
  }

  lemma CapMark(es: seq<Entry>, p: Policy, now: Time, i: nat)
    requires i < |es| && NonNegativeSizes(es)
    ensures AfterCap(es, ExpiredMarks(es, p, now), p)[i] <==>
            Expired(es[i], p, now) || (p.maxBytes.Some? && Live(es[i..], p, now) > p.maxBytes.value)
  {
    if p.maxBytes.Some? {
      UnflaggedIsLive(es, p, now, i);
      CutSeparates(es, ExpiredMarks(es, p, now), 0, p.maxBytes.value, i);
    }
  }

  /** The disk pass on top of the cap pass cuts where it would have cut on its own, or earlier. */
  lemma DiskCutOnTop(es: seq<Entry>, flags: seq<bool>, c: nat, limit: int, i: nat)
    requires i < |es| == |flags| && c <= |es| && NonNegativeSizes(es)
    ensures i < c || i < CutAt(es, FlagBefore(flags, c), 0, limit) <==> i < c || Unflagged(es, flags, i) > limit
  {
    CutSeparates(es, FlagBefore(flags, c), 0, limit, i);
    UnflaggedAfterCut(es, flags, c, i);
  }

  /** The three passes refine the one-line specification: exactly the doomed entries are flagged. */
  lemma MarkedIff(es: seq<Entry>, p: Policy, now: Time, i: nat)
    requires i < |es| && NonNegativeSizes(es)
    ensures Marks(es, p, now)[i] <==> Doomed(es, i, p, now)
  {
    CapMark(es, p, now, i);
    if DiskCritical(p) {
      var flags := ExpiredMarks(es, p, now);
      var c := if p.maxBytes.None? then 0 else CutAt(es, flags, 0, p.maxBytes.value);
      assert AfterCap(es, flags, p) == FlagBefore(flags, c);
      DiskCutOnTop(es, flags, c, DiskLimit(es, p), i);
      UnflaggedIsLive(es, p, now, i);
    }
  }

  /** Oldest first: behind the expired entries, what goes is a prefix of what is left. */
  lemma OldestFirst(es: seq<Entry>, p: Policy, now: Time, i: nat, j: nat)
    requires i < j < |es| && NonNegativeSizes(es)
    requires Marks(es, p, now)[j] && !Expired(es[j], p, now)
    ensures Marks(es, p, now)[i]
  {
    MarkedIff(es, p, now, i);
    MarkedIff(es, p, now, j);
    UnflaggedIsLive(es, p, now, i);
    UnflaggedIsLive(es, p, now, j);
    UnflaggedDecreases(es, ExpiredMarks(es, p, now), i, j);
  }

  // ---------------------------------------------------------------- monotonicity and fixpoint

  predicate Tighter(q: Policy, p: Policy) {
    && q.continuousDays == p.continuousDays && q.motionDays == p.motionDays && q.objectDays == p.objectDays
    && q.diskFree == p.diskFree
    && (p.maxBytes.Some? ==> q.maxBytes.Some? && q.maxBytes.value <= p.maxBytes.value)
    && (p.minFreeBytes.Some? ==> q.minFreeBytes.Some? && q.minFreeBytes.value >= p.minFreeBytes.value)
  }

  lemma {:induction false} SameTiersSameLive(es: seq<Entry>, p: Policy, q: Policy, now: Time)
    requires q.continuousDays == p.continuousDays && q.motionDays == p.motionDays && q.objectDays == p.objectDays
    ensures Live(es, q, now) == Live(es, p, now)
  {
    if es != [] { SameTiersSameLive(es[1..], p, q, now); }
  }

  /** Tightening the storage cap or raising the free-space minimum only adds deletions. */
  lemma TighterDeletesMore(es: seq<Entry>, p: Policy, q: Policy, now: Time, i: nat)
    requires i < |es| && NonNegativeSizes(es) && Tighter(q, p)
    ensures Marks(es, p, now)[i] ==> Marks(es, q, now)[i]
  {
    MarkedIff(es, p, now, i);
    MarkedIff(es, q, now, i);
    SameTiersSameLive(es[i..], p, q, now);
  }

  function Survivors(es: seq<Entry>, p: Policy, now: Time): (r: seq<Entry>) {
    Select(es, Complement(Marks(es, p, now)))
  }

  function Complement(flags: seq<bool>): (r: seq<bool>)
    ensures |r| == |flags| && forall i :: 0 <= i < |r| ==> r[i] == !flags[i]
  {
    seq(|flags|, i requires 0 <= i < |flags| => !flags[i])
  }

  lemma TotalCons(keep: bool, e: Entry, rest: seq<Entry>)
    ensures Total((if keep then [e] else []) + rest) == (if keep then e.size else 0) + Total(rest)
  {
    assert ([e] + rest)[1..] == rest && [] + rest == rest;
  }

  lemma {:induction false} SelectSplitsTotal(es: seq<Entry>, flags: seq<bool>)
    requires |flags| == |es|
    ensures Total(Select(es, flags)) + Total(Select(es, Complement(flags))) == Total(es)
  {
    if es != [] {
      SelectSplitsTotal(es[1..], flags[1..]);
      assert Complement(flags)[1..] == Complement(flags[1..]);
      TotalCons(flags[0], es[0], Select(es[1..], flags[1..]));
      TotalCons(!flags[0], es[0], Select(es[1..], Complement(flags[1..])));
    }
  }

  lemma {:induction false} SelectedIndex(es: seq<Entry>, flags: seq<bool>, k: nat) returns (i: nat)
    requires |flags| == |es| && k < |Select(es, flags)|
    ensures i < |es| && flags[i] && Select(es, flags)[k] == es[i]
    ensures Select(es, flags)[k..] == Select(es[i..], flags[i..])
    decreases es
  {
    assert es[0..] == es && flags[0..] == flags;
    if flags[0] && k == 0 {
      i := 0;
    } else {
      var k' := if flags[0] then k - 1 else k;
      var j := SelectedIndex(es[1..], flags[1..], k');
      i := j + 1;
      assert es[1..][j..] == es[i..] && flags[1..][j..] == flags[i..];
      assert Select(es, flags)[k..] == Select(es[1..], flags[1..])[k'..];
    }
  }

  /** The unexpired survivors from some position on weigh no more than the unexpired originals. */
  lemma {:induction false} LiveOfSelection(es: seq<Entry>, flags: seq<bool>, p: Policy, now: Time)
    requires |flags| == |es| && NonNegativeSizes(es)
    ensures Live(Select(es, flags), p, now) <= Live(es, p, now)
  {
    if es != [] {
      assert es[0] in es;
      forall e | e in es[1..] ensures e.size >= 0 { assert e in es; }
      LiveOfSelection(es[1..], flags[1..], p, now);
      var a := Select(es[1..], flags[1..]);
      assert ([es[0]] + a)[1..] == a && [] + a == a;
    }
  }

  lemma {:induction false} NoExpiredLeft(es: seq<Entry>, p: Policy, now: Time)
    requires forall e :: e in es ==> !Expired(e, p, now)
    ensures Live(es, p, now) == Total(es)
  {
    if es != [] { NoExpiredLeft(es[1..], p, now); }
  }

  /** The policy at the next evaluation: the freed bytes have come back as free space. */
  function Refilled(es: seq<Entry>, p: Policy, now: Time): Policy {
    p.(diskFree := p.diskFree + Total(Victims(es, p, now)))
  }

  // ---------------------------------------------------------------- which setting governs which footage

  predicate NoByteBounds(p: Policy) { p.maxBytes.None? && p.minFreeBytes.None? }

  /** Without byte bounds an entry is deleted exactly by its own tier: footage with objects by the object
      days when set, otherwise footage with motion by the motion days when set, otherwise any footage by
      the continuous days when set, and otherwise not at all. */
  lemma TiersDecide(es: seq<Entry>, p: Policy, now: Time, e: Entry)
    requires NoByteBounds(p)
    ensures e in Victims(es, p, now) <==>
            && e in es
            && if e.hasObjects && p.objectDays > 0 then now - e.start > p.objectDays * DAY
               else if e.hasMotion && p.motionDays > 0 then now - e.start > p.motionDays * DAY
               else p.continuousDays > 0 && now - e.start > p.continuousDays * DAY
  {
    SelectedIff(es, ExpiredMarks(es, p, now), p, now, e);
  }

  lemma {:induction false} SelectedIff(es: seq<Entry>, flags: seq<bool>, p: Policy, now: Time, e: Entry)
    requires |flags| == |es| && forall i :: 0 <= i < |es| ==> flags[i] == Expired(es[i], p, now)
    ensures e in Select(es, flags) <==> e in es && Expired(e, p, now)
    decreases es
  {
    hide Expired;
    if es != [] {
      SelectedIff(es[1..], flags[1..], p, now, e);
      assert e in es <==> e == es[0] || e in es[1..];
    }
  }

  /** Raising the days of tiers that are set never adds a deletion. */
  lemma LongerTiersKeepMore(es: seq<Entry>, p: Policy, q: Policy, now: Time, e: Entry)
    requires NoByteBounds(p) && NoByteBounds(q)
    requires (p.objectDays > 0 <==> q.objectDays > 0) && (p.motionDays > 0 <==> q.motionDays > 0) && (p.continuousDays > 0 <==> q.continuousDays > 0)
    requires p.objectDays <= q.objectDays && p.motionDays <= q.motionDays && p.continuousDays <= q.continuousDays
    ensures e in Victims(es, q, now) ==> e in Victims(es, p, now)
  {
    TiersDecide(es, p, now, e);
    TiersDecide(es, q, now, e);
    hide Victims;
  }

  /** A tier that does not govern an entry cannot change its fate. */
  lemma OtherTiersDoNotMatter(es: seq<Entry>, p: Policy, q: Policy, now: Time, e: Entry)
    requires NoByteBounds(p) && NoByteBounds(q)
    requires if e.hasObjects && p.objectDays > 0 then q.objectDays == p.objectDays
             else if e.hasMotion && p.motionDays > 0 then q.motionDays == p.motionDays && (e.hasObjects ==> q.objectDays <= 0)
             else q.continuousDays == p.continuousDays && (e.hasObjects ==> q.objectDays <= 0) && (e.hasMotion ==> q.motionDays <= 0)
    ensures e in Victims(es, q, now) <==> e in Victims(es, p, now)
  {
    TiersDecide(es, p, now, e);
    TiersDecide(es, q, now, e);
    hide Victims;
  }

  /** Under a storage cap the first law fails: keeping motion footage longer pushes older footage out. */
  lemma LongerTierCanPushOut(quiet: Entry, moving: Entry, now: Time)
    requires !quiet.hasObjects && !quiet.hasMotion && !moving.hasObjects && moving.hasMotion
    requires quiet.size > 0 && moving.size > 0 && DAY < now - moving.start <= 30 * DAY
    ensures var cap := Some(quiet.size);
            && !Marks([quiet, moving], Policy(0, 1, 0, cap, None, 0), now)[0]
            && Marks([quiet, moving], Policy(0, 30, 0, cap, None, 0), now)[0]
  {
    var es, p, q := [quiet, moving], Policy(0, 1, 0, Some(quiet.size), None, 0), Policy(0, 30, 0, Some(quiet.size), None, 0);
    assert NonNegativeSizes(es);
    assert Expired(moving, p, now) && !Expired(moving, q, now) && !Expired(quiet, p, now) && !Expired(quiet, q, now);
    hide Marks, Expired;
    assert es[0..] == es;
    LiveOfTwo(quiet, moving, p, now);
    LiveOfTwo(quiet, moving, q, now);
    MarkedIff(es, p, now, 0);
    MarkedIff(es, q, now, 0);
  }

  lemma LiveOfTwo(a: Entry, b: Entry, p: Policy, now: Time)
    ensures Live([a, b], p, now) == (if Expired(a, p, now) then 0 else a.size) + (if Expired(b, p, now) then 0 else b.size)
  {
    hide Expired;
    assert [a, b][1..] == [b] && [b][1..] == [];
    assert Live([b], p, now) == (if Expired(b, p, now) then 0 else b.size) + Live([], p, now);
  }

  /** The continuous days of a schedule: its age limit stands in when they are zero. */
  function ContinuousDays(setting: int, maxAge: int): int {
    if setting == 0 && maxAge > 0 then maxAge else setting
  }

  /** A schedule that sets only the age limit deletes exactly what is older. */
  lemma AgeLimitDecides(es: seq<Entry>, maxAge: int, now: Time, e: Entry)
    requires maxAge > 0
    ensures e in Victims(es, Policy(ContinuousDays(0, maxAge), 0, 0, None, None, 0), now) <==> e in es && now - e.start > maxAge * DAY
  {
    TiersDecide(es, Policy(ContinuousDays(0, maxAge), 0, 0, None, None, 0), now, e);
  }

  ghost predicate NothingMarked(es: seq<Entry>, p: Policy, now: Time) {
    forall k :: 0 <= k < |es| ==> !Marks(es, p, now)[k]
  }

  lemma SurvivorStays(es: seq<Entry>, p: Policy, now: Time, k: nat)
    requires NonNegativeSizes(es) && k < |Survivors(es, p, now)|
    ensures var rest, q := Survivors(es, p, now), Refilled(es, p, now);
            Marks(rest, q, now)[k] ==> DiskCritical(q)
  {
    var keep, rest := Complement(Marks(es, p, now)), Survivors(es, p, now);
    var q := Refilled(es, p, now);
    var i := SelectedIndex(es, keep, k);
    MarkedIff(es, p, now, i);
    MarkedIff(rest, q, now, k);
    SameTiersSameLive(rest[k..], p, q, now);
    forall e | e in es[i..] ensures e.size >= 0 { assert e in es; }
    LiveOfSelection(es[i..], keep[i..], p, now);
  }

  /** Retention is a fixpoint: evaluating the survivors again deletes nothing. The one exception is a
      free-space reading of zero or less, which switches the disk pass off the first time. */
  lemma RetentionIsStable(es: seq<Entry>, p: Policy, now: Time)
    requires NonNegativeSizes(es)
    ensures var rest, q := Survivors(es, p, now), Refilled(es, p, now);
            NothingMarked(rest, q, now) <==> p.diskFree > 0 || !DiskCritical(q) || rest == []
  {
    var rest, q := Survivors(es, p, now), Refilled(es, p, now);
    forall k | 0 <= k < |rest| ensures Marks(rest, q, now)[k] ==> DiskCritical(q) {
      SurvivorStays(es, p, now, k);
    }
    if DiskCritical(q) && rest != [] {
      var i := SelectedIndex(es, Complement(Marks(es, p, now)), 0);
      VictimsNonNegative(es, Marks(es, p, now));
      if p.diskFree > 0 {
        SurvivorsWeigh(es, p, now, i);
      } else {
        forall e | e in rest ensures !Expired(e, q, now) { SurvivorNotExpired(es, p, now, e); }
        NoExpiredLeft(rest, q, now);
        MarkedIff(rest, q, now, 0);
        assert rest[0..] == rest;
      }
    }
  }

  lemma {:induction false} VictimsNonNegative(es: seq<Entry>, flags: seq<bool>)
    requires |flags| == |es| && NonNegativeSizes(es)
    ensures Total(Select(es, flags)) >= 0
  {
    if es != [] {
      assert es[0] in es;
      forall e | e in es[1..] ensures e.size >= 0 { assert e in es; }
      VictimsNonNegative(es[1..], flags[1..]);
      TotalCons(flags[0], es[0], Select(es[1..], flags[1..]));
    }
  }

  /** The exception is real: with no byte free the first pass ignores the minimum, and the second one
      deletes a segment the first one kept. */
  lemma FullDiskIsIgnored()
    ensures exists es: seq<Entry>, p: Policy, now: Time ::
              && NonNegativeSizes(es) && p.minFreeBytes.Some? && p.diskFree == 0
              && !NothingMarked(Survivors(es, p, now), Refilled(es, p, now), now)
  {
    var stale := Entry("a", 0, 1, "a", 10, Complete, false, false);
    var recent := Entry("b", 10 * DAY, 10 * DAY + 1, "b", 10, Complete, false, false);
    var es, p, now := [stale, recent], Policy(1, 0, 0, None, Some(100), 0), 10 * DAY + 2;
    assert NonNegativeSizes(es);
    assert Marks(es, p, now) == [true, false];
    assert es[1..] == [recent] && [recent][1..] == [];
    assert [true, false][1..] == [false] && Complement([true, false]) == [false, true] && [false, true][1..] == [true];
    assert Select([recent], [false]) == [] && Select([recent], [true]) == [recent];
    assert Victims(es, p, now) == [stale] && Survivors(es, p, now) == [recent];
    assert Total([stale]) == 10;
    RetentionIsStable(es, p, now);
  }

  lemma SurvivorNotExpired(es: seq<Entry>, p: Policy, now: Time, e: Entry)
    requires NonNegativeSizes(es) && e in Survivors(es, p, now)
    ensures !Expired(e, p, now)
  {
    var rest := Survivors(es, p, now);
    var k :| 0 <= k < |rest| && rest[k] == e;
    var i := SelectedIndex(es, Complement(Marks(es, p, now)), k);
    MarkedIff(es, p, now, i);
  }

  /** All that survives lies at or behind any survivor that has nothing kept in front of it. */
  lemma SurvivorsWeigh(es: seq<Entry>, p: Policy, now: Time, i: nat)
    requires NonNegativeSizes(es) && i < |es| && !Marks(es, p, now)[i] && DiskCritical(p)
    ensures p.diskFree + Total(Victims(es, p, now)) >= p.minFreeBytes.value
  {
    var rest, keep := Survivors(es, p, now), Complement(Marks(es, p, now));
    SelectSplitsTotal(es, Marks(es, p, now));
    if rest == [] {
      SelectKeeps(es, keep, i);
    } else {
      var f := SelectedIndex(es, keep, 0);
      MarkedIff(es, p, now, f);
      forall e | e in es[f..] ensures e.size >= 0 { assert e in es; }
      LiveOfSelection(es[f..], keep[f..], p, now);
      assert rest[0..] == rest;
      forall e | e in rest ensures !Expired(e, p, now) { SurvivorNotExpired(es, p, now, e); }
      NoExpiredLeft(rest, p, now);
    }
  }

  lemma {:induction false} SelectKeeps(es: seq<Entry>, flags: seq<bool>, i: nat)
    requires |flags| == |es| && i < |es| && flags[i]
    ensures Select(es, flags) != []
    decreases es
  {
    if i > 0 { SelectKeeps(es[1..], flags[1..], i - 1); }
  }

  // ---------------------------------------------------------------- batched passes

  const BATCH := 10

  function Without(es: seq<Entry>, ids: set<string>): (r: seq<Entry>) {
    if es == [] then []
    else (if es[0].id in ids then [] else [es[0]]) + Without(es[1..], ids)
  }

  function Batch(es: seq<Entry>, p: Policy, now: Time): (r: seq<Entry>) {
    var v := Victims(es, p, now);
    if !DiskCritical(p) && |v| > BATCH then v[..BATCH] else v
  }

  /** One enforceRetention: what the index still lists afterwards. */
  function Pass(es: seq<Entry>, p: Policy, now: Time): (r: seq<Entry>) {
    Without(es, Ids(Batch(es, p, now)))
  }

  function Passes(es: seq<Entry>, p: Policy, now: Time, k: nat): (r: seq<Entry>)
    decreases k
  {
    if k == 0 then es else Passes(Pass(es, p, now), p, now, k - 1)
  }

  method EnforceRetention(es: seq<Entry>, p: Policy, now: Time) returns (survivors: seq<Entry>)
    ensures survivors == Pass(es, p, now)
  {
    hide Victims, Without, DiskCritical, Ids;
    var toDelete := EvaluateRetention(es, p, now);
    if !DiskCritical(p) && |toDelete| > BATCH {
      toDelete := toDelete[..BATCH];
    }
    survivors := RemoveAll(es, toDelete);
  }

  /** One deletion after another. */
  method RemoveAll(es: seq<Entry>, toDelete: seq<Entry>) returns (survivors: seq<Entry>)
    ensures survivors == Without(es, Ids(toDelete))
  {
    hide Without;
    survivors := es;
    WithoutNothing(es, {});
    assert Ids(toDelete[..0]) == {};
    for i := 0 to |toDelete|
      invariant survivors == Without(es, Ids(toDelete[..i]))
    {
      WithoutTwice(es, Ids(toDelete[..i]), {toDelete[i].id});
      IdsOfPrefix(toDelete, i, 1);
      assert toDelete[i..][..1] == [toDelete[i]] && Ids([toDelete[i]]) == {toDelete[i].id};
      survivors := Without(survivors, {toDelete[i].id});
    }
    assert toDelete[..|toDelete|] == toDelete;
  }

  lemma IdsOfPrefix(v: seq<Entry>, a: nat, b: nat)
    requires a + b <= |v|
    ensures v[a + b..] == v[a..][b..]
    ensures Ids(v[..a + b]) == Ids(v[..a]) + Ids(v[a..][..b])
  {
    assert v[..a + b] == v[..a] + v[a..][..b];
  }

  lemma {:induction false} WithoutNothing(es: seq<Entry>, ids: set<string>)
    requires forall e :: e in es ==> e.id !in ids
    ensures Without(es, ids) == es
  {
    if es != [] { WithoutNothing(es[1..], ids); }
  }

  lemma {:induction false} WithoutTwice(es: seq<Entry>, a: set<string>, b: set<string>)
    ensures Without(Without(es, a), b) == Without(es, a + b)
  {
    if es != [] {
      WithoutTwice(es[1..], a, b);
      var w := Without(es[1..], a);
      assert ([es[0]] + w)[1..] == w && [] + w == w;
    }
  }

  lemma {:induction false} WithoutKeepsDistinct(es: seq<Entry>, ids: set<string>)
    requires DistinctIds(es)
    ensures DistinctIds(Without(es, ids)) && forall e :: e in Without(es, ids) ==> e in es
  {
    if es != [] {
      WithoutKeepsDistinct(es[1..], ids);
      forall e | e in es[1..] ensures e.id != es[0].id {
        var k :| 0 <= k < |es[1..]| && es[1..][k] == e;
        assert es[k + 1] == e;
      }
    }
  }

  /** Away from the disk pass the victims are a prefix cut by the cap, then the expired ones. */
  function Cut(es: seq<Entry>, p: Policy, now: Time): (c: nat)
    ensures c <= |es|
  {
    if es == [] || p.maxBytes.None? || Live(es, p, now) <= p.maxBytes.value then 0 else 1 + Cut(es[1..], p, now)
  }

  function ExpiredOnly(es: seq<Entry>, p: Policy, now: Time): (r: seq<Entry>) {
    if es == [] then []
    else (if Expired(es[0], p, now) then [es[0]] else []) + ExpiredOnly(es[1..], p, now)
  }

  lemma {:induction false} CutIsCutAt(es: seq<Entry>, p: Policy, now: Time, i: nat)
    requires i <= |es| && p.maxBytes.Some?
    ensures CutAt(es, ExpiredMarks(es, p, now), i, p.maxBytes.value) == i + Cut(es[i..], p, now)
    decreases |es| - i
  {
    UnflaggedIsLive(es, p, now, i);
    if i < |es| {
      assert es[i..][1..] == es[i + 1..];
      CutIsCutAt(es, p, now, i + 1);
    }
  }

  lemma {:induction false} SelectCut(es: seq<Entry>, p: Policy, now: Time, c: nat)
    requires c <= |es|
    ensures Select(es, FlagBefore(ExpiredMarks(es, p, now), c)) == es[..c] + ExpiredOnly(es[c..], p, now)
  {
    if es != [] {
      var d := if c == 0 then 0 else c - 1;
      SelectCut(es[1..], p, now, d);
      CutBehindFirst(es, p, now, c);
      var rest := es[1..];
      hide ExpiredMarks, FlagBefore, Expired;
      if c > 0 {
        assert es[..c] == [es[0]] + rest[..d] && es[c..] == rest[d..];
      } else {
        assert es[0..] == es && rest[0..] == rest && es[..0] == [] && rest[..0] == [];
      }
    }
  }

  lemma CutBehindFirst(es: seq<Entry>, p: Policy, now: Time, c: nat)
    requires es != [] && c <= |es|
    ensures var flags := FlagBefore(ExpiredMarks(es, p, now), c);
            && |flags| == |es| && flags[0] == (c > 0 || Expired(es[0], p, now))
            && flags[1..] == FlagBefore(ExpiredMarks(es[1..], p, now), if c == 0 then 0 else c - 1)
  {
    hide Expired;
  }

  lemma VictimsByCut(es: seq<Entry>, p: Policy, now: Time)
    requires !DiskCritical(p)
    ensures var c := Cut(es, p, now); Victims(es, p, now) == es[..c] + ExpiredOnly(es[c..], p, now)
  {
    var flags, c := ExpiredMarks(es, p, now), Cut(es, p, now);
    if p.maxBytes.Some? {
      CutIsCutAt(es, p, now, 0);
      assert es[0..] == es;
    } else {
      assert flags == FlagBefore(flags, 0);
    }
    SelectCut(es, p, now, c);
  }

  lemma {:induction false} PeelExpired(es: seq<Entry>, p: Policy, now: Time)
    requires DistinctIds(es) && ExpiredOnly(es, p, now) != []
    ensures var x := ExpiredOnly(es, p, now); var r := Without(es, {x[0].id});
            && ExpiredOnly(r, p, now) == x[1..] && Live(r, p, now) == Live(es, p, now)
  {
    var x := ExpiredOnly(es, p, now);
    assert DistinctIds(es[1..]);
    if Expired(es[0], p, now) {
      assert forall k :: 0 <= k < |es[1..]| ==> es[1..][k] == es[k + 1];
      WithoutNothing(es[1..], {es[0].id});
      assert [] + es[1..] == es[1..];
    } else {
      assert [] + ExpiredOnly(es[1..], p, now) == x;
      PeelExpired(es[1..], p, now);
      ExpiredAreListed(es[1..], p, now, x[0]);
      var r := Without(es[1..], {x[0].id});
      assert ([es[0]] + r)[1..] == r;
    }
  }

  lemma {:induction false} ExpiredAreListed(es: seq<Entry>, p: Policy, now: Time, e: Entry)
    requires e in ExpiredOnly(es, p, now)
    ensures exists k :: 0 <= k < |es| && es[k] == e
  {
    if !(Expired(es[0], p, now) && e == es[0]) {
      ExpiredAreListed(es[1..], p, now, e);
      var k :| 0 <= k < |es[1..]| && es[1..][k] == e;
      assert es[k + 1] == e;
    }
  }

  lemma PeelPrefix(es: seq<Entry>, p: Policy, now: Time)
    requires DistinctIds(es) && Cut(es, p, now) > 0
    ensures var c := Cut(es, p, now);
            && Without(es, {es[0].id}) == es[1..]
            && Cut(es[1..], p, now) == c - 1
            && es[1..][..c - 1] == es[..c][1..] && es[1..][c - 1..] == es[c..]
  {
    DropFirst(es);
    hide *;
    var c := Cut(es, p, now);
    assert es[1..][..c - 1] == es[..c][1..] && es[1..][c - 1..] == es[c..];
  }

  lemma DropFirst(es: seq<Entry>)
    requires DistinctIds(es) && es != []
    ensures Without(es, {es[0].id}) == es[1..]
  {
    assert forall k :: 0 <= k < |es[1..]| ==> es[1..][k] == es[k + 1];
    WithoutNothing(es[1..], {es[0].id});
  }

  /** Deleting the first victim leaves exactly the other victims. */
  lemma PeelVictim(es: seq<Entry>, p: Policy, now: Time)
    requires DistinctIds(es) && !DiskCritical(p) && Victims(es, p, now) != []
    ensures var v := Victims(es, p, now); Victims(Without(es, {v[0].id}), p, now) == v[1..]
  {
    hide *;
    var v, c := Victims(es, p, now), Cut(es, p, now);
    VictimsByCut(es, p, now);
    var r := Without(es, {v[0].id});
    VictimsByCut(r, p, now);
    if c > 0 {
      PeelPrefix(es, p, now);
      assert v[1..] == es[..c][1..] + ExpiredOnly(es[c..], p, now);
    } else {
      assert v == ExpiredOnly(es, p, now) by { assert es[..0] == [] && es[0..] == es; }
      PeelExpired(es, p, now);
      assert es != [] by { if es == [] { VictimsOfNone(p, now); } }
      SameLiveNoCut(es, r, p, now);
      assert r[..0] == [] && r[0..] == r;
    }
  }

  lemma VictimsOfNone(p: Policy, now: Time)
    ensures Victims([], p, now) == []
  {}

  lemma SameLiveNoCut(es: seq<Entry>, r: seq<Entry>, p: Policy, now: Time)
    requires Cut(es, p, now) == 0 && es != [] && Live(r, p, now) == Live(es, p, now)
    ensures Cut(r, p, now) == 0
  {}

  lemma {:induction false} PeelVictims(es: seq<Entry>, p: Policy, now: Time, m: nat)
    requires DistinctIds(es) && !DiskCritical(p) && m <= |Victims(es, p, now)|
    ensures var v := Victims(es, p, now); Victims(Without(es, Ids(v[..m])), p, now) == v[m..]
    decreases m
  {
    hide Victims;
    var v := Victims(es, p, now);
    if m == 0 {
      WithoutNothing(es, {});
      assert Ids(v[..0]) == {};
    } else {
      var r := Without(es, {v[0].id});
      PeelVictim(es, p, now);
      WithoutKeepsDistinct(es, {v[0].id});
      PeelVictims(r, p, now, m - 1);
      WithoutTwice(es, {v[0].id}, Ids(v[1..][..m - 1]));
      IdsOfPrefix(v, 1, m - 1);
      assert v[..1] == [v[0]] && Ids([v[0]]) == {v[0].id};
    }
  }

  /** Going from es to r deleted the first m victims of es and leaves the others as the victims of r. */
  ghost predicate Peeled(es: seq<Entry>, r: seq<Entry>, p: Policy, now: Time, m: nat) {
    var v := Victims(es, p, now);
    && m <= |v| && r == Without(es, Ids(v[..m])) && Victims(r, p, now) == v[m..]
  }

  lemma PeeledTwice(es: seq<Entry>, r: seq<Entry>, t: seq<Entry>, p: Policy, now: Time, a: nat, b: nat)
    requires Peeled(es, r, p, now, a) && Peeled(r, t, p, now, b)
    ensures Peeled(es, t, p, now, a + b)
  {
    hide Victims, Without, Ids;
    var v := Victims(es, p, now);
    IdsOfPrefix(v, a, b);
    WithoutTwice(es, Ids(v[..a]), Ids(v[a..][..b]));
  }

  lemma FirstBatch(es: seq<Entry>, p: Policy, now: Time)
    requires DistinctIds(es) && !DiskCritical(p)
    ensures Peeled(es, Pass(es, p, now), p, now, Min(BATCH, |Victims(es, p, now)|))
    ensures DistinctIds(Pass(es, p, now))
  {
    hide Victims;
    var v := Victims(es, p, now);
    var b := Min(BATCH, |v|);
    assert v[..b] == Batch(es, p, now);
    PeelVictims(es, p, now, b);
    WithoutKeepsDistinct(es, Ids(v[..b]));
  }

  /** With the clock fixed and nothing recorded in between, k batched passes delete the first 10k
      victims of one unlimited pass. */
  lemma {:induction false} BatchedPasses(es: seq<Entry>, p: Policy, now: Time, k: nat)
    requires DistinctIds(es) && !DiskCritical(p)
    ensures Peeled(es, Passes(es, p, now, k), p, now, Min(BATCH * k, |Victims(es, p, now)|))
    decreases k
  {
    hide Victims;
    var v := Victims(es, p, now);
    if k == 0 {
      WithoutNothing(es, {});
      assert Ids(v[..0]) == {};
    } else {
      var r := Pass(es, p, now);
      FirstBatch(es, p, now);
      BatchedPasses(r, p, now, k - 1);
      assert |Victims(r, p, now)| == |v| - Min(BATCH, |v|);
      hide Peeled, Pass;
      PeeledTwice(es, r, Passes(r, p, now, k - 1), p, now, Min(BATCH, |v|), Min(BATCH * (k - 1), |Victims(r, p, now)|));
    }
  }

  /** Deleting the selected entries by id leaves exactly the others. */
  lemma WithoutSelected(es: seq<Entry>, flags: seq<bool>)
    requires DistinctIds(es) && |flags| == |es|
    ensures Without(es, Ids(Select(es, flags))) == Select(es, Complement(flags))
  {
    var ids := Ids(Select(es, flags));
    forall i | 0 <= i < |es| ensures es[i].id in ids <==> flags[i] {
      if flags[i] { SelectHas(es, flags, i); }
      if es[i].id in ids {
        var e :| e in Select(es, flags) && e.id == es[i].id;
        var k :| 0 <= k < |Select(es, flags)| && Select(es, flags)[k] == e;
        var j := SelectedIndex(es, flags, k);
      }
    }
    WithoutByFlags(es, flags, ids);
  }

  lemma {:induction false} SelectHas(es: seq<Entry>, flags: seq<bool>, i: nat)
    requires i < |es| == |flags| && flags[i]
    ensures es[i] in Select(es, flags)
    decreases es
  {
    if i > 0 { SelectHas(es[1..], flags[1..], i - 1); }
  }

  lemma {:induction false} WithoutByFlags(es: seq<Entry>, flags: seq<bool>, ids: set<string>)
    requires |flags| == |es| && forall i :: 0 <= i < |es| ==> (es[i].id in ids <==> flags[i])
    ensures Without(es, ids) == Select(es, Complement(flags))
    decreases es
  {
    if es != [] {
      assert Complement(flags)[1..] == Complement(flags[1..]);
      WithoutByFlags(es[1..], flags[1..], ids);
    }
  }

  /** Batching loses nothing: after ceil(n/10) passes, and not before, the listing is exactly what one
      unlimited evaluation lets survive. */
  lemma BatchingConverges(es: seq<Entry>, p: Policy, now: Time, k: nat)
    requires DistinctIds(es) && !DiskCritical(p)
    ensures var v := Victims(es, p, now);
            && (Victims(Passes(es, p, now, k), p, now) == [] <==> k >= (|v| + BATCH - 1) / BATCH)
            && (k >= (|v| + BATCH - 1) / BATCH ==> Passes(es, p, now, k) == Survivors(es, p, now))
  {
    WithoutSelected(es, Marks(es, p, now));
    assert Survivors(es, p, now) == Without(es, Ids(Victims(es, p, now)));
    hide Victims, Passes, Survivors;
    BatchedPasses(es, p, now, k);
    var v := Victims(es, p, now);
    assert v[..|v|] == v;
  }

  /** Below the free-space minimum a single pass does it all: it leaves exactly the survivors, and with
      the freed bytes back the next evaluation marks nothing. */
  lemma CriticalPassSettles(es: seq<Entry>, p: Policy, now: Time)
    requires DistinctIds(es) && NonNegativeSizes(es) && DiskCritical(p)
    ensures Pass(es, p, now) == Survivors(es, p, now)
    ensures NothingMarked(Pass(es, p, now), Refilled(es, p, now), now)
  {
    WithoutSelected(es, Marks(es, p, now));
    RetentionIsStable(es, p, now);
  }

  /** Away from it, limited passes settle as well: once they are through, the next evaluation with the
      freed bytes back marks nothing unless those bytes first switch the disk pass on. */
  lemma LimitedPassesSettle(es: seq<Entry>, p: Policy, now: Time, k: nat)
    requires DistinctIds(es) && NonNegativeSizes(es) && !DiskCritical(p)
    requires k >= (|Victims(es, p, now)| + BATCH - 1) / BATCH
    ensures var rest, q := Passes(es, p, now, k), Refilled(es, p, now);
            NothingMarked(rest, q, now) <==> p.diskFree > 0 || !DiskCritical(q) || rest == []
  {
    hide Victims, Passes, Survivors, Refilled;
    BatchingConverges(es, p, now, k);
    RetentionIsStable(es, p, now);
  }
}
