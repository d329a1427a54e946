/** The records the tracker passes around. The repository's `types` module
    is not part of this model; the shapes below are the ones its users in
    src/App.tsx and the components read and build. Timestamps (the source's
    `Date` objects and `Date.now()` values) are integer milliseconds. */
module Types {

  datatype Option<T> = None | Some(value: T)

  /** One recorded or in-progress work session. */
  datatype TimeEntry = TimeEntry(
    id: string,
    title: string,
    description: string,
    category: string,
    labels: seq<string>,
    startTime: int,
    endTime: Option<int>,
    isRunning: bool)

  /** What the entry form hands to its `onSubmit` callback. */
  datatype EntryData = EntryData(
    title: string,
    description: string,
    category: string,
    labels: seq<string>)

  /** The result of the statistics pass, in seconds. */
  datatype TimeStats = TimeStats(
    totalTime: real,
    categoryBreakdown: map<string, real>,
    labelBreakdown: map<string, real>)

  predicate IsCompleted(e: TimeEntry) {
    e.endTime.Some? && !e.isRunning
  }
}
