module Wrappers {
  datatype Option<+T> = None | Some(value: T)
}

/** The recording segment record every component shares (pkg/recorder/index.go). */
module Recording {
  /** Nanoseconds since the zero time, 0001-01-01T00:00:00Z. */
  type Time = int
  const ZERO_TIME: Time := 0
  const SECOND := 1_000_000_000
  const DAY := 86_400 * SECOND

  datatype Status = InProgress | Complete | Interrupted | Corrupted | Deleted

  /** What QueryByChannel, FirstAvailable and LastAvailable return. */
  predicate Playable(s: Status) {
    s.Complete? || s.Interrupted?
  }

  datatype Entry = Entry(
    id: string,
    start: Time,
    end: Time,
    path: string,
    size: int,
    status: Status,
    hasMotion: bool,
    hasObjects: bool)

  ghost predicate DistinctIds(es: seq<Entry>) {
    forall i, j :: 0 <= i < j < |es| ==> es[i].id != es[j].id
  }

  function Ids(es: seq<Entry>): (ids: set<string>) {
    set e | e in es :: e.id
  }

  function Max(a: int, b: int): int { if a < b then b else a }
  function Min(a: int, b: int): int { if a < b then a else b }
}
